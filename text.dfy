/** String matching used by the server's `LIKE '%x%'` filters and the
    client's `toLowerCase().includes(...)` filters. */
module Text {

  /** ASCII part of `String.prototype.toLowerCase` on one character. */
  function Lower(c: char): (d: char)
    ensures 'A' <= c <= 'Z' ==> d as int == c as int + 32
    ensures !('A' <= c <= 'Z') ==> d == c
    ensures !('A' <= d <= 'Z')
  {
    if 'A' <= c <= 'Z' then (c as int + 32) as char else c
  }

  /** `s.toLowerCase()`, restricted to ASCII letters. */
  function LowerStr(s: string): (r: string)
    ensures |r| == |s|
    ensures forall i :: 0 <= i < |s| ==> r[i] == Lower(s[i])
  {
    seq(|s|, i requires 0 <= i < |s| => Lower(s[i]))
  }

  predicate IsPrefix(p: string, s: string)
  {
    |p| <= |s| && s[..|p|] == p
  }

  /** `s.includes(p)`: `p` starts at some position of `s`, tried left to right. */
  predicate Contains(s: string, p: string)
    ensures Contains(s, p) ==> |p| <= |s|
    ensures p == [] ==> Contains(s, p)
    decreases |s|
  {
    assert s[..0] == [];
    IsPrefix(p, s) || (s != [] && Contains(s[1..], p))
  }

  /** `p` occurs in `s` starting at index `i`. */
  predicate OccursAt(s: string, p: string, i: int)
  {
    0 <= i && i + |p| <= |s| && s[i..i + |p|] == p
  }

  /** Case-insensitive containment, as the client writes it:
      `s.toLowerCase().includes(p.toLowerCase())`. */
  predicate ContainsIgnoreCase(s: string, p: string)
  {
    Contains(LowerStr(s), LowerStr(p))
  }

  /** An occurrence at any index is found by the left-to-right search. */
  lemma {:induction false} OccursImpliesContains(s: string, p: string, i: int)
    requires OccursAt(s, p, i)
    ensures Contains(s, p)
    decreases i
  {
    if i > 0 {
      assert s[1..][i - 1..i - 1 + |p|] == s[i..i + |p|];
      OccursImpliesContains(s[1..], p, i - 1);
    }
  }

  /** The left-to-right search finds `p` exactly when `p` occurs somewhere in `s`. */
  lemma {:induction false} ContainsIffOccurs(s: string, p: string)
    ensures Contains(s, p) <==> exists i :: OccursAt(s, p, i)
    decreases |s|
  {
    if exists i :: OccursAt(s, p, i) {
      var i :| OccursAt(s, p, i);
      OccursImpliesContains(s, p, i);
    }
    if IsPrefix(p, s) {
      assert OccursAt(s, p, 0);
    } else if s != [] && Contains(s[1..], p) {
      ContainsIffOccurs(s[1..], p);
      var i :| OccursAt(s[1..], p, i);
      assert s[i + 1..i + 1 + |p|] == s[1..][i..i + |p|];
      assert OccursAt(s, p, i + 1);
    }
  }

  /** An exact (case-sensitive) occurrence is also a case-insensitive one. */
  lemma ContainsImpliesIgnoreCase(s: string, p: string)
    requires Contains(s, p)
    ensures ContainsIgnoreCase(s, p)
  {
    ContainsIffOccurs(s, p);
    var i :| OccursAt(s, p, i);
    var ls, lp := LowerStr(s), LowerStr(p);
    assert ls[i..i + |p|] == lp by {
      forall k | 0 <= k < |p| ensures ls[i..i + |p|][k] == lp[k] {
        assert s[i..i + |p|][k] == p[k];
      }
    }
    assert OccursAt(ls, lp, i);
    ContainsIffOccurs(ls, lp);
  }

}
