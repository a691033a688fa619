/**
 * A dictionary-encoded column (Column.java). Each distinct value is stored
 * once in `valuesByPosition`, found again through the map from its hash code
 * to its position, and every row stores only that position in `data`. The
 * dictionary is keyed by the hash code, not by the value, so two values with
 * the same hash code share one entry: the first one seen.
 */
module Columns {
  const TwoTo31: int := 0x8000_0000
  const TwoTo32: int := 0x1_0000_0000

  /** Reduces an integer to Java's 32-bit two's-complement range. */
  function Wrap32(x: int): (r: int)
    ensures -TwoTo31 <= r < TwoTo31
    ensures (r - x) % TwoTo32 == 0
  {
    (x + TwoTo31) % TwoTo32 - TwoTo31
  }

  /** String.hashCode: h := 31 * h + c over the characters, in int arithmetic. */
  function HashCode(s: string): (h: int)
    ensures -TwoTo31 <= h < TwoTo31
  {
    if |s| == 0 then 0 else Wrap32(31 * HashCode(s[..|s| - 1]) + s[|s| - 1] as int)
  }

  /** Two different strings with one hash code: the dictionary cannot tell them apart. */
  lemma HashCollision()
    ensures "Aa" != "BB" && HashCode("Aa") == HashCode("BB") == 2112
  {
    HashCodeSnoc("", 'A');
    HashCodeSnoc("", 'B');
    assert HashCode("A") == 65 && HashCode("B") == 66;
    HashCodeSnoc("A", 'a');
    HashCodeSnoc("B", 'B');
  }

  /** Appending a character multiplies the hash code by 31 and adds the character, in int arithmetic. */
  lemma HashCodeSnoc(s: string, c: char)
    ensures HashCode(s + [c]) == Wrap32(31 * HashCode(s) + c as int)
  {
    assert (s + [c])[..|s|] == s;
  }

  function Pow31(n: nat): (r: int)
    ensures r >= 1
  {
    if n == 0 then 1 else 31 * Pow31(n - 1)
  }

  /** The sum of s[i]·31^(n-1-i) over the n characters of `s`, before any reduction to 32 bits. */
  function HashPolynomial(s: string): int
  {
    if |s| == 0 then 0 else s[0] as int * Pow31(|s| - 1) + HashPolynomial(s[1..])
  }

  lemma {:induction false} HashPolynomialSnoc(s: string, c: char)
    ensures HashPolynomial(s + [c]) == 31 * HashPolynomial(s) + c as int
    decreases |s|
  {
    if |s| == 0 {
      assert (s + [c])[1..] == [];
    } else {
      assert (s + [c])[1..] == s[1..] + [c];
      HashPolynomialSnoc(s[1..], c);
    }
  }

  /** One step of the hash: wrapping the running value first gives the same int as wrapping only at the end. */
  lemma Wrap32Step(x: int, c: int)
    ensures Wrap32(31 * Wrap32(x) + c) == Wrap32(31 * x + c)
  {
    var d := Wrap32(x) - x;
    var q := d / TwoTo32;
    assert d == TwoTo32 * q;
    assert (31 * Wrap32(x) + c) - (31 * x + c) == TwoTo32 * (31 * q);
  }

  /**
   * String.hashCode as its closed form: the polynomial over the characters
   * with base 31, reduced to a signed 32-bit int.
   */
  lemma {:induction false} HashCodeClosedForm(s: string)
    ensures HashCode(s) == Wrap32(HashPolynomial(s))
    decreases |s|
  {
    if |s| > 0 {
      var init, c := s[..|s| - 1], s[|s| - 1];
      assert s == init + [c];
      HashCodeClosedForm(init);
      HashPolynomialSnoc(init, c);
      Wrap32Step(HashPolynomial(init), c as int);
    }
  }

  ghost function Hashes(vals: seq<string>): set<int>
  {
    set v | v in vals :: HashCode(v)
  }

  lemma HashesSnoc(vals: seq<string>, v: string)
    ensures Hashes(vals + [v]) == Hashes(vals) + {HashCode(v)}
  {
    assert forall w :: w in vals + [v] <==> w in vals || w == v;
  }

  /** Total number of characters of the values. */
  function TotalLength(vals: seq<string>): nat
  {
    if |vals| == 0 then 0 else TotalLength(vals[..|vals| - 1]) + |vals[|vals| - 1]|
  }

  /** The dictionary built from `vals`: every value whose hash code was not seen before it, in arrival order. */
  ghost function Dictionary(vals: seq<string>): seq<string>
  {
    if |vals| == 0 then []
    else
      var d := Dictionary(vals[..|vals| - 1]);
      var v := vals[|vals| - 1];
      if HashCode(v) in Hashes(d) then d else d + [v]
  }

  /** The first value of `vals` whose hash code is `h`. */
  ghost function FirstWithHash(vals: seq<string>, h: int): (v: string)
    requires h in Hashes(vals)
  {
    var prefix := vals[..|vals| - 1];
    assert vals == prefix + [vals[|vals| - 1]];
    HashesSnoc(prefix, vals[|vals| - 1]);
    if h in Hashes(prefix) then FirstWithHash(prefix, h) else vals[|vals| - 1]
  }

  /** What reading the column back yields: each value replaced by the first value seen with its hash code. */
  ghost function Decoded(vals: seq<string>): (r: seq<string>)
    ensures |r| == |vals|
  {
    seq(|vals|, i requires 0 <= i < |vals| => FirstWithHash(vals, HashCode(vals[i])))
  }

  lemma {:induction false} FirstWithHashIsMember(vals: seq<string>, h: int)
    requires h in Hashes(vals)
    ensures FirstWithHash(vals, h) in vals && HashCode(FirstWithHash(vals, h)) == h
  {
    var prefix := vals[..|vals| - 1];
    assert vals == prefix + [vals[|vals| - 1]];
    HashesSnoc(prefix, vals[|vals| - 1]);
    if h in Hashes(prefix) {
      FirstWithHashIsMember(prefix, h);
    }
  }

  lemma FirstWithHashSnoc(vals: seq<string>, v: string, h: int)
    requires h in Hashes(vals)
    ensures h in Hashes(vals + [v]) && FirstWithHash(vals + [v], h) == FirstWithHash(vals, h)
  {
    HashesSnoc(vals, v);
    assert (vals + [v])[..|vals|] == vals;
  }

  /** The dictionary holds exactly one value per hash code seen. */
  lemma {:induction false} DictionaryHashes(vals: seq<string>)
    ensures Hashes(Dictionary(vals)) == Hashes(vals)
    ensures forall p, q :: 0 <= p < q < |Dictionary(vals)| ==> HashCode(Dictionary(vals)[p]) != HashCode(Dictionary(vals)[q])
  {
    if |vals| > 0 {
      var prefix := vals[..|vals| - 1];
      var v := vals[|vals| - 1];
      assert vals == prefix + [v];
      DictionaryHashes(prefix);
      HashesSnoc(prefix, v);
      var d := Dictionary(prefix);
      if HashCode(v) !in Hashes(d) {
        HashesSnoc(d, v);
        assert forall p :: 0 <= p < |d| ==> d[p] in d;
      }
    }
  }

  /** Every dictionary entry is the first value that arrived with its hash code, so it was added. */
  lemma {:induction false} DictionaryFirstSeen(vals: seq<string>)
    ensures forall p :: 0 <= p < |Dictionary(vals)| ==>
      HashCode(Dictionary(vals)[p]) in Hashes(vals) &&
      Dictionary(vals)[p] == FirstWithHash(vals, HashCode(Dictionary(vals)[p]))
    ensures forall x :: x in Dictionary(vals) ==> x in vals
  {
    if |vals| > 0 {
      var prefix := vals[..|vals| - 1];
      var v := vals[|vals| - 1];
      assert vals == prefix + [v];
      DictionaryFirstSeen(prefix);
      DictionaryHashes(prefix);
      HashesSnoc(prefix, v);
      var d := Dictionary(prefix);
      forall p | 0 <= p < |d|
        ensures HashCode(d[p]) in Hashes(vals) && d[p] == FirstWithHash(vals, HashCode(d[p]))
      {
        FirstWithHashSnoc(prefix, v, HashCode(d[p]));
      }
    }
  }

  /** When no two added values share a hash code, reading the column back gives exactly what was added. */
  lemma DecodedWhenHashInjective(vals: seq<string>)
    requires forall i, j :: 0 <= i < |vals| && 0 <= j < |vals| && HashCode(vals[i]) == HashCode(vals[j]) ==> vals[i] == vals[j]
    ensures Decoded(vals) == vals
  {
    forall i | 0 <= i < |vals|
      ensures Decoded(vals)[i] == vals[i]
    {
      FirstWithHashIsMember(vals, HashCode(vals[i]));
    }
  }

  /** When no two added values share a hash code, the dictionary holds every added value. */
  lemma DictionaryCompleteWhenHashInjective(vals: seq<string>)
    requires forall i, j :: 0 <= i < |vals| && 0 <= j < |vals| && HashCode(vals[i]) == HashCode(vals[j]) ==> vals[i] == vals[j]
    ensures forall x :: x in Dictionary(vals) <==> x in vals
  {
    DictionaryHashes(vals);
    DictionaryFirstSeen(vals);
    forall x | x in vals
      ensures x in Dictionary(vals)
    {
      assert HashCode(x) in Hashes(Dictionary(vals));
      var y :| y in Dictionary(vals) && HashCode(y) == HashCode(x);
      assert y in vals;
    }
  }

  /** Under a collision the column reads back the first value in place of the second. */
  lemma CollisionReadsBackFirstValue()
    ensures Dictionary(["Aa", "BB"]) == ["Aa"]
    ensures Decoded(["Aa", "BB"]) == ["Aa", "Aa"]
  {
    HashCollision();
    var vals := ["Aa", "BB"];
    assert vals[..1] == ["Aa"] && vals[..1][..0] == [];
    HashesSnoc([], "Aa");
    HashesSnoc(["Aa"], "BB");
    assert Dictionary(["Aa"]) == ["Aa"];
    FirstWithHashIsMember(vals, HashCode("BB"));
    FirstWithHashIsMember(vals, HashCode("Aa"));
  }

  /** The hash map points every entry's hash code at the entry's position, and holds no other keys. */
  ghost predicate Indexed(values: seq<string>, positions: map<int, nat>)
  {
    && (forall p :: 0 <= p < |values| ==>
          HashCode(values[p]) in positions && positions[HashCode(values[p])] == p)
    && (forall h :: h in positions ==> positions[h] < |values| && HashCode(values[positions[h]]) == h)
  }

  /** Every row's position decodes to the first added value with that row's hash code. */
  ghost predicate RowsDecode(values: seq<string>, data: seq<nat>, added: seq<string>)
  {
    && |data| == |added|
    && (forall i :: 0 <= i < |data| ==>
          data[i] < |values| &&
          HashCode(added[i]) in Hashes(added) &&
          values[data[i]] == FirstWithHash(added, HashCode(added[i])))
  }

  /**
   * The encoding invariant of a column: the dictionary is built from the
   * added values, the hash map indexes it, every row decodes, and the memory
   * estimate is 4 bytes per row plus 2 per character of every dictionary entry.
   */
  ghost predicate Encodes(values: seq<string>, positions: map<int, nat>, data: seq<nat>, added: seq<string>, memorySize: int)
  {
    && values == Dictionary(added)
    && Indexed(values, positions)
    && RowsDecode(values, data, added)
    && memorySize == 4 * |data| + 2 * TotalLength(values)
  }

  lemma EarlierRowsStillDecode(added: seq<string>, v: string)
    ensures forall i :: 0 <= i < |added| ==>
      HashCode(added[i]) in Hashes(added) &&
      HashCode((added + [v])[i]) in Hashes(added + [v]) &&
      FirstWithHash(added + [v], HashCode((added + [v])[i])) == FirstWithHash(added, HashCode(added[i]))
  {
    forall i | 0 <= i < |added|
      ensures HashCode(added[i]) in Hashes(added)
      ensures HashCode((added + [v])[i]) in Hashes(added + [v])
      ensures FirstWithHash(added + [v], HashCode((added + [v])[i])) == FirstWithHash(added, HashCode(added[i]))
    {
      assert (added + [v])[i] == added[i] && added[i] in added;
      FirstWithHashSnoc(added, v, HashCode(added[i]));
    }
  }

  /** Appending a row whose position decodes to the right value keeps every row decoding. */
  lemma RowsDecodeSnoc(values: seq<string>, data: seq<nat>, added: seq<string>, v: string, pos: nat)
    requires RowsDecode(values, data, added)
    requires pos < |values|
    requires HashCode(v) in Hashes(added + [v]) && values[pos] == FirstWithHash(added + [v], HashCode(v))
    ensures RowsDecode(values, data + [pos], added + [v])
  {
    var data', added' := data + [pos], added + [v];
    EarlierRowsStillDecode(added, v);
    forall i | 0 <= i < |data'|
      ensures data'[i] < |values|
      ensures HashCode(added'[i]) in Hashes(added')
      ensures values[data'[i]] == FirstWithHash(added', HashCode(added'[i]))
    {
      if i < |data| {
        assert data'[i] == data[i] && added'[i] == added[i];
      } else {
        assert data'[i] == pos && added'[i] == v;
      }
    }
  }

  /** Growing the dictionary keeps the positions of the rows already stored valid. */
  lemma RowsDecodeGrow(values: seq<string>, data: seq<nat>, added: seq<string>, v: string)
    requires RowsDecode(values, data, added)
    ensures RowsDecode(values + [v], data, added)
  {
    forall i | 0 <= i < |data|
      ensures (values + [v])[data[i]] == values[data[i]]
    {
    }
  }

  /** Adding a value whose hash code is already stored reuses its position and keeps the dictionary. */
  lemma AddKnownHash(values: seq<string>, positions: map<int, nat>, data: seq<nat>, added: seq<string>, memorySize: int, v: string)
    requires Encodes(values, positions, data, added, memorySize)
    requires HashCode(v) in positions
    ensures Encodes(values, positions, data + [positions[HashCode(v)]], added + [v], memorySize + 4)
  {
    var h := HashCode(v);
    var pos := positions[h];
    var added' := added + [v];
    assert HashCode(values[pos]) == h;
    assert h in Hashes(values) by { assert values[pos] in values; }
    assert Dictionary(added') == values by {
      assert added'[..|added|] == added;
    }
    assert values[pos] == FirstWithHash(added', h) by {
      DictionaryHashes(added);
      DictionaryFirstSeen(added);
      FirstWithHashSnoc(added, v, h);
    }
    assert h in Hashes(added') by { assert v in added'; }
    RowsDecodeSnoc(values, data, added, v, pos);
  }

  lemma IndexedSnoc(values: seq<string>, positions: map<int, nat>, v: string)
    requires Indexed(values, positions)
    requires HashCode(v) !in positions
    ensures Indexed(values + [v], positions[HashCode(v) := |values|])
  {
    var h := HashCode(v);
    var values', positions' := values + [v], positions[h := |values|];
    forall p | 0 <= p < |values'|
      ensures HashCode(values'[p]) in positions' && positions'[HashCode(values'[p])] == p
    {
      if p < |values| {
        assert values'[p] == values[p];
      }
    }
    forall k | k in positions'
      ensures positions'[k] < |values'| && HashCode(values'[positions'[k]]) == k
    {
      if k != h {
        assert values'[positions[k]] == values[positions[k]];
      }
    }
  }

  /** Adding a value with a new hash code appends it to the dictionary and maps the hash code to its position. */
  lemma AddNewHash(values: seq<string>, positions: map<int, nat>, data: seq<nat>, added: seq<string>, memorySize: int, v: string)
    requires Encodes(values, positions, data, added, memorySize)
    requires HashCode(v) !in positions
    ensures Encodes(values + [v], positions[HashCode(v) := |values|], data + [|values|], added + [v], memorySize + 2 * |v| + 4)
  {
    var h := HashCode(v);
    var values', added' := values + [v], added + [v];
    assert h !in Hashes(values);
    assert Dictionary(added') == values' by {
      assert added'[..|added|] == added;
    }
    assert h !in Hashes(added) by { DictionaryHashes(added); }
    assert FirstWithHash(added', h) == v by {
      HashesSnoc(added, v);
      assert added'[..|added|] == added;
    }
    assert h in Hashes(added') by { assert v in added'; }
    IndexedSnoc(values, positions, v);
    RowsDecodeGrow(values, data, added, v);
    assert values'[|values|] == v;
    RowsDecodeSnoc(values', data, added, v, |values|);
    assert TotalLength(values') == TotalLength(values) + |v| by {
      assert values'[..|values|] == values;
    }
  }

  class Column {
    var valuesByPosition: seq<string>
    var positionByValueHash: map<int, nat>
    var data: seq<nat>
    var memorySize: int
    /** Every value passed to Add, in order. */
    ghost var added: seq<string>

    ghost predicate Valid()
      reads this
    {
      Encodes(valuesByPosition, positionByValueHash, data, added, memorySize)
    }

    constructor ()
      ensures Valid() && added == []
      ensures valuesByPosition == [] && data == [] && memorySize == 0
    {
      valuesByPosition := [];
      positionByValueHash := map[];
      data := [];
      memorySize := 0;
      added := [];
    }

    /** Appends one row holding `value`. */
    method Add(value: string)
      requires Valid()
      modifies this
      ensures Valid()
      ensures added == old(added) + [value]
      ensures |data| == old(|data|) + 1
      ensures HashCode(value) in old(positionByValueHash) ==>
        valuesByPosition == old(valuesByPosition) && memorySize == old(memorySize) + 4
      ensures HashCode(value) !in old(positionByValueHash) ==>
        valuesByPosition == old(valuesByPosition) + [value] && memorySize == old(memorySize) + 2 * |value| + 4
    {
      var h := HashCode(value);
      ghost var values0, positions0, data0, added0, size0 := valuesByPosition, positionByValueHash, data, added, memorySize;
      if h in positionByValueHash {
        var index := positionByValueHash[h];
        data, memorySize, added := data + [index], memorySize + 4, added + [value];
        AddKnownHash(values0, positions0, data0, added0, size0, value);
      } else {
        var index := |valuesByPosition|;
        valuesByPosition, positionByValueHash := valuesByPosition + [value], positionByValueHash[h := index];
        data, memorySize, added := data + [index], memorySize + 2 * |value| + 4, added + [value];
        AddNewHash(values0, positions0, data0, added0, size0, value);
      }
    }

    /** The values of the rows, in row order. */
    function Stream(): (s: seq<string>)
      reads this
      requires Valid()
      ensures s == Decoded(added)
    {
      seq(|data|, i requires 0 <= i < |data| && data[i] < |valuesByPosition| reads this => valuesByPosition[data[i]])
    }

    /** Number of rows. */
    function Size(): (n: nat)
      reads this
      requires Valid()
      ensures n == |added|
    {
      |data|
    }

    /** The running memory estimate. */
    function MemorySize(): int
      reads this
    {
      memorySize
    }

    /** The estimate is 4 bytes per row plus 2 per character of every dictionary entry. */
    lemma MemoryAccounting()
      requires Valid()
      ensures MemorySize() == 4 * |added| + 2 * TotalLength(Dictionary(added))
      ensures MemorySize() >= 4 * Size()
    {
    }

    /** The distinct values: the dictionary's entries, all of them added values. */
    function DistinctValues(): (r: set<string>)
      reads this
      requires Valid()
      ensures forall v :: v in r <==> v in Dictionary(added)
      ensures forall v :: v in r ==> v in added
    {
      DictionaryFirstSeen(added);
      set v | v in valuesByPosition
    }
  }
}
