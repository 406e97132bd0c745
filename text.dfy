/** String helpers used by ingestion and retrieval: bounded slicing, `sep.join`,
    ASCII lower-casing and substring search. Strings are sequences of characters. */
module Text {

  function Min(a: int, b: int): (m: int)
    ensures m <= a && m <= b && (m == a || m == b)
  {
    if a <= b then a else b
  }

  /** Python's `s[:n]` for a non-negative `n`: the first `n` characters, or all of `s`. */
  function Take(s: string, n: nat): (r: string)
    ensures |r| == Min(n, |s|)
    ensures r == s[..|r|]
  {
    s[..Min(n, |s|)]
  }

  // ---------------------------------------------------------------------------
  // sep.join(parts)
  // ---------------------------------------------------------------------------

  /** Python's `sep.join(parts)`. */
  function Join(sep: string, parts: seq<string>): string
    decreases |parts|
  {
    if |parts| == 0 then ""
    else if |parts| == 1 then parts[0]
    else parts[0] + sep + Join(sep, parts[1..])
  }

  /** Where part `j` begins inside `Join(sep, parts)`: every earlier part, each followed by `sep`. */
  function PartOffset(sep: string, parts: seq<string>, j: nat): nat
    requires j <= |parts|
  {
    if j == 0 then 0 else PartOffset(sep, parts, j - 1) + |parts[j - 1]| + |sep|
  }

  /** Joining one more part appends the separator and that part. */
  lemma {:induction false} JoinSnoc(sep: string, parts: seq<string>, last: string)
    requires parts != []
    ensures Join(sep, parts + [last]) == Join(sep, parts) + sep + last
    decreases |parts|
  {
    if |parts| == 1 {
      assert parts + [last] == [parts[0], last];
    } else {
      assert (parts + [last])[1..] == parts[1..] + [last];
      JoinSnoc(sep, parts[1..], last);
    }
  }

  lemma {:induction false} PartOffsetTail(sep: string, parts: seq<string>, j: nat)
    requires 1 <= j <= |parts|
    ensures PartOffset(sep, parts, j) == |parts[0]| + |sep| + PartOffset(sep, parts[1..], j - 1)
  {
    if j > 1 {
      PartOffsetTail(sep, parts, j - 1);
    }
  }

  /** A slice of the right operand of a concatenation, taken through the concatenation. */
  lemma SliceOfRight(x: string, y: string, lo: nat, hi: nat)
    requires lo <= hi <= |y|
    ensures (x + y)[|x| + lo..|x| + hi] == y[lo..hi]
  {
    assert forall t :: 0 <= t < hi - lo ==> (x + y)[|x| + lo..|x| + hi][t] == y[lo..hi][t];
  }

  /** The last part ends the joined string. */
  lemma {:induction false} JoinLength(sep: string, parts: seq<string>)
    requires parts != []
    ensures |Join(sep, parts)| == PartOffset(sep, parts, |parts| - 1) + |parts[|parts| - 1]|
    decreases |parts|
  {
    if |parts| > 1 {
      JoinLength(sep, parts[1..]);
      PartOffsetTail(sep, parts, |parts| - 1);
    }
  }

  /** Part `j` sits at `PartOffset(j)` in the joined string. */
  lemma {:induction false} JoinPartAt(sep: string, parts: seq<string>, j: nat)
    requires j < |parts|
    ensures PartOffset(sep, parts, j) + |parts[j]| <= |Join(sep, parts)|
    ensures Join(sep, parts)[PartOffset(sep, parts, j)..PartOffset(sep, parts, j) + |parts[j]|] == parts[j]
    decreases |parts|
  {
    if |parts| == 1 {
      return;
    }
    var rest := Join(sep, parts[1..]);
    var head := parts[0] + sep;
    assert Join(sep, parts) == head + rest;
    if j == 0 {
      assert (head + rest)[..|parts[0]|] == parts[0];
    } else {
      JoinPartAt(sep, parts[1..], j - 1);
      PartOffsetTail(sep, parts, j);
      var a := PartOffset(sep, parts[1..], j - 1);
      assert parts[1..][j - 1] == parts[j];
      SliceOfRight(head, rest, a, a + |parts[j]|);
    }
  }

  /** Every part but the last is followed by one `sep`. */
  lemma {:induction false} JoinSepAfter(sep: string, parts: seq<string>, j: nat)
    requires j + 1 < |parts|
    ensures PartOffset(sep, parts, j + 1) <= |Join(sep, parts)|
    ensures Join(sep, parts)[PartOffset(sep, parts, j) + |parts[j]|..PartOffset(sep, parts, j + 1)] == sep
    decreases |parts|
  {
    var rest := Join(sep, parts[1..]);
    var head := parts[0] + sep;
    assert Join(sep, parts) == head + rest;
    if j == 0 {
      assert (head + rest)[|parts[0]|..|head|] == sep;
    } else {
      JoinSepAfter(sep, parts[1..], j - 1);
      PartOffsetTail(sep, parts, j);
      PartOffsetTail(sep, parts, j + 1);
      var a := PartOffset(sep, parts[1..], j - 1);
      var b := PartOffset(sep, parts[1..], j);
      assert parts[1..][j - 1] == parts[j];
      SliceOfRight(head, rest, a + |parts[j]|, b);
    }
  }

  // ---------------------------------------------------------------------------
  // str.lower() on the ASCII letters
  // ---------------------------------------------------------------------------

  function LowerChar(c: char): char {
    if 'A' <= c <= 'Z' then (c as int + 32) as char else c
  }

  /** `s.lower()`, restricted to the ASCII letters A-Z. */
  function Lower(s: string): (r: string)
    ensures |r| == |s|
    ensures forall i :: 0 <= i < |s| ==> r[i] == LowerChar(s[i])
  {
    if s == [] then [] else [LowerChar(s[0])] + Lower(s[1..])
  }

  // ---------------------------------------------------------------------------
  // the `sub in s` test
  // ---------------------------------------------------------------------------

  predicate IsPrefix(p: string, s: string) {
    |p| <= |s| && s[..|p|] == p
  }

  /** `sub` occurs in `s` starting at index `i`. */
  predicate OccursAt(s: string, sub: string, i: int) {
    0 <= i && i + |sub| <= |s| && s[i..i + |sub|] == sub
  }

  /** Python's `sub in s`, as a left-to-right scan. */
  predicate Contains(s: string, sub: string)
    decreases |s|
  {
    IsPrefix(sub, s) || (|s| > 0 && Contains(s[1..], sub))
  }

  /** The scan finds `sub` exactly when `sub` occurs at some index of `s`. */
  lemma {:induction false} ContainsIff(s: string, sub: string)
    ensures Contains(s, sub) <==> exists i :: OccursAt(s, sub, i)
    decreases |s|
  {
    if IsPrefix(sub, s) {
      assert OccursAt(s, sub, 0);
    } else if |s| == 0 {
    } else {
      ContainsIff(s[1..], sub);
      if exists i :: OccursAt(s[1..], sub, i) {
        var i :| OccursAt(s[1..], sub, i);
        assert s[1..][i..i + |sub|] == s[i + 1..i + 1 + |sub|];
        assert OccursAt(s, sub, i + 1);
      }
      if exists i :: OccursAt(s, sub, i) {
        var i :| OccursAt(s, sub, i);
        assert i != 0;
        assert s[1..][i - 1..i - 1 + |sub|] == s[i..i + |sub|];
        assert OccursAt(s[1..], sub, i - 1);
      }
    }
  }

  /** If `s` contains `q`, it contains every prefix of `q`. */
  lemma {:induction false} ContainsPrefixOf(s: string, p: string, q: string)
    requires IsPrefix(p, q) && Contains(s, q)
    ensures Contains(s, p)
  {
    ContainsIff(s, q);
    var i :| OccursAt(s, q, i);
    assert s[i..i + |p|] == s[i..i + |q|][..|p|];
    assert OccursAt(s, p, i);
    ContainsIff(s, p);
  }

  /** When `p` is a prefix of `q`, testing `p in s or q in s` is the same as testing `p in s`. */
  lemma {:induction false} ContainsEitherOfPrefix(s: string, p: string, q: string)
    requires IsPrefix(p, q)
    ensures Contains(s, p) || Contains(s, q) <==> Contains(s, p)
  {
    if Contains(s, q) {
      ContainsPrefixOf(s, p, q);
    }
  }
}
