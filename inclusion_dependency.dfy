/**
 * The inclusion dependency record: the values of `dependentColumn` in
 * `dependentTable` are all found in `referencedColumn` of `referencedTable`.
 * Equality is structural over the four fields, as a datatype's is.
 */
module InclusionDependencies {
  import opened Wrappers
  import opened Lists

  const Arrow: string := " → "
  const Colon: string := ": "
  const SubsetSign: string := " ⊆ "

  datatype InclusionDependency = InclusionDependency(
    dependentTable: string,
    referencedTable: string,
    dependentColumn: string,
    referencedColumn: string)
  {
    /** The line the result file holds for this dependency. */
    function ToString(): (s: string)
      ensures |s| == |dependentTable| + |referencedTable| + |dependentColumn| + |referencedColumn| + 8
      ensures s[..|dependentTable|] == dependentTable
      ensures s[|s| - |referencedColumn|..] == referencedColumn
    {
      var s := dependentTable + Arrow + referencedTable + Colon + dependentColumn + SubsetSign + referencedColumn;
      assert s == dependentTable + (Arrow + referencedTable + Colon + dependentColumn + SubsetSign + referencedColumn);
      assert s == (dependentTable + Arrow + referencedTable + Colon + dependentColumn + SubsetSign) + referencedColumn;
      s
    }

    /** The names contain none of the separator characters, so the rendering can be split again. */
    predicate Unambiguous() {
      '→' !in dependentTable && ':' !in referencedTable && '⊆' !in dependentColumn
    }
  }

  lemma IndexOfAfter(a: string, b: string, c: char)
    requires c !in a
    requires |b| > 0 && b[0] == c
    ensures IndexOf(a + b, c) == Some(|a|)
  {
    var s := a + b;
    assert s[|a|] == c;
    assert s[..|a|] == a;
  }

  /**
   * Reads a rendered line back: splits at the first arrow, then at the first
   * colon, then at the first subset sign. The inverse of ToString on
   * unambiguous names.
   */
  function Parse(s: string): Option<InclusionDependency>
  {
    match IndexOf(s, '→')
    case None => None
    case Some(i) =>
      if i < 1 || i + 1 >= |s| || s[i - 1] != ' ' || s[i + 1] != ' ' then None
      else ParseAfterArrow(s[..i - 1], s[i + 2..])
  }

  function ParseAfterArrow(dependentTable: string, rest: string): Option<InclusionDependency>
  {
    match IndexOf(rest, ':')
    case None => None
    case Some(j) =>
      if j + 1 >= |rest| || rest[j + 1] != ' ' then None
      else ParseColumns(dependentTable, rest[..j], rest[j + 2..])
  }

  function ParseColumns(dependentTable: string, referencedTable: string, rest: string): Option<InclusionDependency>
  {
    match IndexOf(rest, '⊆')
    case None => None
    case Some(k) =>
      if k < 1 || k + 1 >= |rest| || rest[k - 1] != ' ' || rest[k + 1] != ' ' then None
      else Some(InclusionDependency(dependentTable, referencedTable, rest[..k - 1], rest[k + 2..]))
  }

  /** The rendering loses nothing: parsing it gives back the four fields. */
  lemma RenderParseRoundTrip(d: InclusionDependency)
    requires d.Unambiguous()
    ensures Parse(d.ToString()) == Some(d)
  {
    var dt, rt, dc, rc := d.dependentTable, d.referencedTable, d.dependentColumn, d.referencedColumn;
    var tail2 := dc + SubsetSign + rc;
    var tail := rt + Colon + tail2;
    assert d.ToString() == dt + Arrow + tail by {
      assert dt + Arrow + rt + Colon + dc + SubsetSign + rc == dt + Arrow + (rt + Colon + (dc + SubsetSign + rc));
    }
    ParseArrowStep(dt, tail);
    ParseColonStep(dt, rt, tail2);
    ParseSubsetStep(dt, rt, dc, rc);
  }

  lemma ParseArrowStep(dt: string, tail: string)
    requires '→' !in dt
    ensures Parse(dt + Arrow + tail) == ParseAfterArrow(dt, tail)
  {
    var s := dt + Arrow + tail;
    assert s == (dt + " ") + ("→ " + tail);
    IndexOfAfter(dt + " ", "→ " + tail, '→');
    var i := |dt| + 1;
    assert s[..i - 1] == dt;
    assert s[i + 2..] == tail;
  }

  lemma ParseColonStep(dt: string, rt: string, tail: string)
    requires ':' !in rt
    ensures ParseAfterArrow(dt, rt + Colon + tail) == ParseColumns(dt, rt, tail)
  {
    var s := rt + Colon + tail;
    assert s == rt + (": " + tail);
    IndexOfAfter(rt, ": " + tail, ':');
    assert s[..|rt|] == rt;
    assert s[|rt| + 2..] == tail;
  }

  lemma ParseSubsetStep(dt: string, rt: string, dc: string, rc: string)
    requires '⊆' !in dc
    ensures ParseColumns(dt, rt, dc + SubsetSign + rc) == Some(InclusionDependency(dt, rt, dc, rc))
  {
    var s := dc + SubsetSign + rc;
    assert s == (dc + " ") + ("⊆ " + rc);
    IndexOfAfter(dc + " ", "⊆ " + rc, '⊆');
    assert s[..|dc|] == dc;
    assert s[|dc| + 3..] == rc;
  }

  /** Two unambiguous dependencies that render alike are the same dependency. */
  lemma RenderingInjective(d1: InclusionDependency, d2: InclusionDependency)
    requires d1.Unambiguous() && d2.Unambiguous()
    requires d1.ToString() == d2.ToString()
    ensures d1 == d2
  {
    RenderParseRoundTrip(d1);
    RenderParseRoundTrip(d2);
  }
}
