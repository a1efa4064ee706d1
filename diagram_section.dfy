/** The project page's collapsible diagrams: a record from diagram index to
    a flag, empty at first; clicking a header flips that index's entry, and a
    diagram's chart is rendered while its entry is truthy. */
module DiagramSection {

  datatype Diagram = Diagram(title: string, description: string, mermaidCode: string)

  /** `openDiagrams[index]` read as a condition: a missing entry is `undefined`, falsy. */
  predicate IsOpen(open: map<int, bool>, index: int) {
    index in open && open[index]
  }

  /** `{ ...prev, [index]: !prev[index] }`. */
  function Toggled(open: map<int, bool>, index: int): (r: map<int, bool>)
    ensures r.Keys == open.Keys + {index}
    ensures IsOpen(r, index) != IsOpen(open, index)
  {
    open[index := !IsOpen(open, index)]
  }

  /** A toggle negates the toggled entry's truthiness and leaves every other
      entry exactly as it was. */
  lemma ToggledSpec(open: map<int, bool>, index: int)
    ensures IsOpen(Toggled(open, index), index) <==> !IsOpen(open, index)
    ensures index in Toggled(open, index)
    ensures forall j :: j != index ==>
              (j in Toggled(open, index) <==> j in open) &&
              (j in open ==> Toggled(open, index)[j] == open[j])
    ensures forall j :: j != index ==> (IsOpen(Toggled(open, index), j) <==> IsOpen(open, j))
  {
  }

  /** Toggling the same index twice gives it back its truthiness: a closed
      diagram is closed again. */
  lemma ToggleTwice(open: map<int, bool>, index: int)
    ensures IsOpen(Toggled(Toggled(open, index), index), index) == IsOpen(open, index)
    ensures forall j :: IsOpen(Toggled(Toggled(open, index), index), j) == IsOpen(open, j)
  {
  }

  /** What each diagram's box shows below its header: the chart while open, nothing otherwise. */
  function Rendered(diagrams: seq<Diagram>, open: map<int, bool>): (r: seq<Option<string>>)
    ensures |r| == |diagrams|
    ensures forall i :: 0 <= i < |r| ==> (r[i].Some? <==> IsOpen(open, i))
    ensures forall i :: 0 <= i < |r| && r[i].Some? ==> r[i].value == diagrams[i].mermaidCode
  {
    seq(|diagrams|, i requires 0 <= i < |diagrams| =>
      if IsOpen(open, i) then Some(diagrams[i].mermaidCode) else None)
  }

  datatype Option<T> = None | Some(value: T)

  /** No diagram is open on the first render. */
  lemma InitiallyClosed(diagrams: seq<Diagram>)
    ensures forall i :: 0 <= i < |diagrams| ==> Rendered(diagrams, map[])[i] == None
  {
  }

  /** The component's state. */
  class Section {
    const diagrams: seq<Diagram>
    var openDiagrams: map<int, bool>

    constructor (diagrams: seq<Diagram>)
      ensures this.diagrams == diagrams
      ensures openDiagrams == map[]
    {
      this.diagrams := diagrams;
      openDiagrams := map[];
    }

    /** `toggleDiagram(index)`: replaces the record with the toggled copy. */
    method ToggleDiagram(index: int)
      modifies this
      ensures openDiagrams == Toggled(old(openDiagrams), index)
    {
      openDiagrams := Toggled(openDiagrams, index);
    }

    function View(): seq<Option<string>>
      reads this
    {
      Rendered(diagrams, openDiagrams)
    }
  }
}
