/**
 * Order-preserving row selection: the shape shared by pandas' boolean
 * filters, `dropna` and `drop_duplicates(keep="first")`.
 */
module Selection {

  /** Number of `true` entries of a mask. */
  function CountTrue(m: seq<bool>): (n: nat)
    ensures n <= |m|
  {
    if m == [] then 0 else CountTrue(m[..|m| - 1]) + (if m[|m| - 1] then 1 else 0)
  }

  /** The positions a mask keeps, in increasing order. */
  function Kept(m: seq<bool>): (ks: seq<nat>)
    ensures |ks| == CountTrue(m)
    ensures forall k :: 0 <= k < |ks| ==> ks[k] < |m| && m[ks[k]]
    ensures forall k, l :: 0 <= k < l < |ks| ==> ks[k] < ks[l]
    ensures forall i :: 0 <= i < |m| && m[i] ==> i in ks
  {
    if m == [] then [] else Kept(m[..|m| - 1]) + (if m[|m| - 1] then [|m| - 1] else [])
  }

  /** The elements of `s` whose mask entry is true, in their original order. */
  function Select<T>(s: seq<T>, m: seq<bool>): (r: seq<T>)
    requires |m| == |s|
    ensures |r| == |Kept(m)|
    ensures forall k :: 0 <= k < |r| ==> r[k] == s[Kept(m)[k]]
  {
    if s == [] then [] else Select(s[..|s| - 1], m[..|m| - 1]) + (if m[|m| - 1] then [s[|s| - 1]] else [])
  }

  /** An element survives a selection exactly when some position holding it is kept. */
  lemma SelectMembers<T>(s: seq<T>, m: seq<bool>, x: T)
    requires |m| == |s|
    ensures x in Select(s, m) <==> exists i :: 0 <= i < |s| && m[i] && s[i] == x
  {
    var r, ks := Select(s, m), Kept(m);
    if x in r {
      var k :| 0 <= k < |r| && r[k] == x;
      assert m[ks[k]] && s[ks[k]] == x;
    }
    if i :| 0 <= i < |s| && m[i] && s[i] == x {
      assert i in ks;
      var k :| 0 <= k < |ks| && ks[k] == i;
      assert r[k] == x;
    }
  }

  /** Whatever holds of every element of `s` holds of every element of a selection from it. */
  lemma SelectSubset<T>(s: seq<T>, m: seq<bool>)
    requires |m| == |s|
    ensures forall x :: x in Select(s, m) ==> x in s
  {
    forall x | x in Select(s, m) ensures x in s {
      SelectMembers(s, m, x);
    }
  }

  /** A selection from a sequence without repeated elements has none either. */
  lemma SelectKeepsDistinct<T>(s: seq<T>, m: seq<bool>)
    requires |m| == |s|
    requires forall i, j :: 0 <= i < j < |s| ==> s[i] != s[j]
    ensures forall k, l :: 0 <= k < l < |Select(s, m)| ==> Select(s, m)[k] != Select(s, m)[l]
  {
    var r, ks := Select(s, m), Kept(m);
    forall k, l | 0 <= k < l < |r| ensures r[k] != r[l] {
      assert r[k] == s[ks[k]] && r[l] == s[ks[l]] && ks[k] < ks[l];
    }
  }

  /** keeps position i exactly when no earlier position holds the same key */
  function FirstMask<K(==)>(ks: seq<K>): seq<bool>
  {
    seq(|ks|, i requires 0 <= i < |ks| => ks[i] !in ks[..i])
  }

  /** First-seen distinct values (`drop_duplicates(keep="first")`). */
  function Distinct<K(==)>(ks: seq<K>): seq<K>
  {
    Select(ks, FirstMask(ks))
  }

  /** The position at which a value first occurs. */
  function FirstIndex<K(==)>(ks: seq<K>, x: K): (i: nat)
    requires x in ks
    ensures i < |ks| && ks[i] == x && x !in ks[..i]
  {
    if ks[0] == x then 0 else 1 + FirstIndex(ks[1..], x)
  }

  /** A position holding a value that does not occur before it is that value's first index. */
  lemma FirstIndexUnique<K>(ks: seq<K>, i: nat)
    requires i < |ks| && ks[i] !in ks[..i]
    ensures FirstIndex(ks, ks[i]) == i
  {
  }

  /**
   * `Distinct` keeps one copy of every value, in the order of first
   * appearance: no value twice, nothing new, nothing lost.
   */
  lemma DistinctSpec<K>(ks: seq<K>)
    ensures forall k, l :: 0 <= k < l < |Distinct(ks)| ==> Distinct(ks)[k] != Distinct(ks)[l]
    ensures forall x :: x in Distinct(ks) <==> x in ks
    ensures forall k :: 0 <= k < |Distinct(ks)| ==> FirstIndex(ks, Distinct(ks)[k]) == Kept(FirstMask(ks))[k]
    ensures forall k, l :: 0 <= k < l < |Distinct(ks)| ==>
              FirstIndex(ks, Distinct(ks)[k]) < FirstIndex(ks, Distinct(ks)[l])
  {
    var m := FirstMask(ks);
    var d, pos := Distinct(ks), Kept(m);
    forall k | 0 <= k < |d| ensures d[k] in ks && FirstIndex(ks, d[k]) == pos[k] {
      FirstIndexUnique(ks, pos[k]);
    }
    forall k, l | 0 <= k < l < |d| ensures d[k] != d[l] {
      assert d[k] == ks[pos[k]] && d[l] == ks[pos[l]];
      assert ks[pos[k]] in ks[..pos[l]];
    }
    forall x ensures x in d <==> x in ks {
      SelectMembers(ks, m, x);
      if x in ks {
        var i := FirstIndex(ks, x);
        assert m[i] && ks[i] == x;
      }
    }
  }

  lemma {:induction false} CountTrueZero(m: seq<bool>)
    ensures CountTrue(m) == 0 <==> forall i :: 0 <= i < |m| ==> !m[i]
  {
    if m != [] {
      CountTrueZero(m[..|m| - 1]);
      assert forall i :: 0 <= i < |m| - 1 ==> m[..|m| - 1][i] == m[i];
    }
  }

  lemma {:induction false} CountTrueFull(m: seq<bool>)
    ensures CountTrue(m) == |m| <==> forall i :: 0 <= i < |m| ==> m[i]
  {
    if m != [] {
      CountTrueFull(m[..|m| - 1]);
      assert forall i :: 0 <= i < |m| - 1 ==> m[..|m| - 1][i] == m[i];
    }
  }

  /** A mask that keeps everything keeps every position in place. */
  lemma {:induction false} KeptAll(m: seq<bool>, k: nat)
    requires forall i :: 0 <= i < |m| ==> m[i]
    requires k < |m|
    ensures |Kept(m)| == |m| && Kept(m)[k] == k
  {
    CountTrueFull(m);
    if k < |m| - 1 {
      KeptAll(m[..|m| - 1], k);
    }
  }
}
