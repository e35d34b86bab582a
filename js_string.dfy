/** Wrappers: the stock optional value, used for DOM lookups that may find nothing. */
module Wrappers {
  datatype Option<+T> = None | Some(value: T)
}

/**
 * The JavaScript string primitives the extraction step relies on:
 * the whitespace class shared by `\s` and `String.prototype.trim`,
 * `length` (UTF-16 code units), `includes`, `toLowerCase` and `trim`.
 * A Dafny `char` is a Unicode scalar value; a JavaScript string is a
 * sequence of UTF-16 code units, which only matters for `length`.
 */
module JsString {

  /** JavaScript WhiteSpace and LineTerminator code points (the set matched
      by the regular expression `\s` and removed by `trim`). */
  predicate IsWs(c: char) {
    var n := c as int;
    (0x09 <= n <= 0x0D) || n == 0x20 || n == 0xA0 || n == 0x1680
    || (0x2000 <= n <= 0x200A) || n == 0x2028 || n == 0x2029
    || n == 0x202F || n == 0x205F || n == 0x3000 || n == 0xFEFF
  }

  /** `s.length`: characters outside the Basic Multilingual Plane take two
      UTF-16 code units. */
  function Utf16Length(s: string): (n: nat)
    ensures |s| <= n <= 2 * |s|
    ensures n == |s| <==> forall i :: 0 <= i < |s| ==> s[i] as int <= 0xFFFF
  {
    if s == [] then 0
    else (if s[0] as int > 0xFFFF then 2 else 1) + Utf16Length(s[1..])
  }

  /** One character is one code unit, or two outside the Basic Multilingual
      Plane. */
  lemma Utf16LengthChar(c: char)
    ensures Utf16Length([c]) == if c as int > 0xFFFF then 2 else 1
  {
    assert [c][1..] == [];
  }

  /** The code units of a concatenation are those of its parts. */
  lemma {:induction false} Utf16LengthAppend(a: string, b: string)
    ensures Utf16Length(a + b) == Utf16Length(a) + Utf16Length(b)
    decreases |a|
  {
    if a != [] {
      assert (a + b)[1..] == a[1..] + b;
      Utf16LengthAppend(a[1..], b);
    } else {
      assert a + b == b;
    }
  }

  /** `t` occurs in `s` starting at index `i`. */
  predicate OccursAt(s: string, t: string, i: nat) {
    i + |t| <= |s| && s[i..i + |t|] == t
  }

  /** `s.includes(t)`: `t` occurs somewhere in `s` (the empty `t` is found
      everywhere, also in the empty `s`). */
  function Contains(s: string, t: string): (r: bool)
    decreases |s|
    ensures r <==> exists i: nat :: OccursAt(s, t, i)
  {
    if |t| > |s| then false
    else if s[..|t|] == t then assert OccursAt(s, t, 0); true
    else
      var r := Contains(s[1..], t);
      assert forall i: nat :: OccursAt(s, t, i + 1) <==> OccursAt(s[1..], t, i);
      assert r ==> exists i: nat :: OccursAt(s, t, i) by {
        if r {
          var i: nat :| OccursAt(s[1..], t, i);
          assert OccursAt(s, t, i + 1);
        }
      }
      assert (exists i: nat :: OccursAt(s, t, i)) ==> r by {
        if exists i: nat :: OccursAt(s, t, i) {
          var i: nat :| OccursAt(s, t, i);
          assert i != 0;
          assert OccursAt(s[1..], t, i - 1);
        }
      }
      r
  }

  /** ASCII case folding of one character. */
  function LowerChar(c: char): char {
    if 'A' <= c <= 'Z' then (c as int + 32) as char else c
  }

  /** `s.toLowerCase()`, restricted to ASCII case folding. */
  function ToLower(s: string): (r: string) {
    seq(|s|, i requires 0 <= i < |s| => LowerChar(s[i]))
  }

  predicate IsLowerAscii(t: string) {
    forall i :: 0 <= i < |t| ==> !('A' <= t[i] <= 'Z')
  }

  /** The window of `s` at index `i` agrees with `kw` up to ASCII case. */
  predicate MatchesIgnoringCaseAt(s: string, kw: string, i: nat) {
    i + |kw| <= |s| && forall j :: 0 <= j < |kw| ==> LowerChar(s[i + j]) == LowerChar(kw[j])
  }

  /** `s.toLowerCase().includes(kw)` for a lower-case keyword is exactly a
      case-insensitive search for `kw` in `s`. */
  lemma {:induction false} LowerContains(s: string, kw: string)
    requires IsLowerAscii(kw)
    ensures Contains(ToLower(s), kw) <==> exists i: nat :: MatchesIgnoringCaseAt(s, kw, i)
  {
    var l := ToLower(s);
    forall i: nat
      ensures OccursAt(l, kw, i) <==> MatchesIgnoringCaseAt(s, kw, i)
    {
      if i + |kw| <= |s| {
        assert OccursAt(l, kw, i) <==> forall j :: 0 <= j < |kw| ==> l[i + j] == kw[j] by {
          assert forall j :: 0 <= j < |kw| ==> (l[i..i + |kw|][j] == kw[j] <==> l[i + j] == kw[j]);
        }
      }
    }
  }

  /** Drops leading whitespace: the result is a suffix of `s`, everything
      dropped is whitespace and the result does not start with whitespace. */
  function TrimStart(s: string): (r: string)
    ensures |r| <= |s| && r == s[|s| - |r|..]
    ensures forall i :: 0 <= i < |s| - |r| ==> IsWs(s[i])
    ensures r == [] || !IsWs(r[0])
  {
    if s != [] && IsWs(s[0]) then TrimStart(s[1..]) else s
  }

  /** Drops trailing whitespace: the result is a prefix of `s`, everything
      dropped is whitespace and the result does not end with whitespace. */
  function TrimEnd(s: string): (r: string)
    ensures |r| <= |s| && r == s[..|r|]
    ensures forall i :: |r| <= i < |s| ==> IsWs(s[i])
    ensures r == [] || !IsWs(r[|r| - 1])
  {
    if s != [] && IsWs(s[|s| - 1]) then TrimEnd(s[..|s| - 1]) else s
  }

  /** `s.trim()`. */
  function Trim(s: string): (r: string) {
    TrimEnd(TrimStart(s))
  }

  /** No whitespace at either end. */
  predicate NoEdgeWs(s: string) {
    s == [] || (!IsWs(s[0]) && !IsWs(s[|s| - 1]))
  }

  /** The number of whitespace characters `trim` drops at the start. */
  function LeadingWs(s: string): nat {
    |s| - |TrimStart(s)|
  }

  /** The trimmed string is a slice of the input starting after the leading
      whitespace. */
  lemma TrimSlice(s: string)
    ensures LeadingWs(s) + |Trim(s)| <= |s|
    ensures Trim(s) == s[LeadingWs(s)..LeadingWs(s) + |Trim(s)|]
  {
    var t := TrimStart(s);
    var r := TrimEnd(t);
    SliceOfSuffix(s, |s| - |t|, t, |r|);
  }

  /** A prefix of a suffix is a middle slice. */
  lemma SliceOfSuffix(s: string, a: nat, t: string, n: nat)
    requires a <= |s| && t == s[a..] && n <= |t|
    ensures t[..n] == s[a..a + n]
  {
  }

  /** Everything after the trimmed slice is whitespace. */
  lemma TrimTrailingWs(s: string)
    ensures forall i :: LeadingWs(s) + |Trim(s)| <= i < |s| ==> IsWs(s[i])
  {
    var t := TrimStart(s);
    var r := TrimEnd(t);
    var a := |s| - |t|;
    forall i | a + |r| <= i < |s| ensures IsWs(s[i]) {
      assert s[i] == t[i - a];
    }
  }

  /** `trim` removes a whitespace-only prefix and suffix and nothing else, and
      leaves no whitespace at either end. */
  lemma TrimSpec(s: string)
    ensures LeadingWs(s) + |Trim(s)| <= |s|
    ensures Trim(s) == s[LeadingWs(s)..LeadingWs(s) + |Trim(s)|]
    ensures forall i :: 0 <= i < LeadingWs(s) ==> IsWs(s[i])
    ensures forall i :: LeadingWs(s) + |Trim(s)| <= i < |s| ==> IsWs(s[i])
    ensures NoEdgeWs(Trim(s))
  {
    TrimSlice(s);
    TrimTrailingWs(s);
    var t := TrimStart(s);
    var r := TrimEnd(t);
    if r != [] {
      assert r[0] == t[0];
    }
  }

  /** `trim` leaves a string without edge whitespace as it is, so it is
      idempotent. */
  lemma TrimFixpoint(s: string)
    requires NoEdgeWs(s)
    ensures Trim(s) == s
  {
  }

  lemma TrimIdempotent(s: string)
    ensures Trim(Trim(s)) == Trim(s)
  {
    TrimSpec(s);
    TrimFixpoint(Trim(s));
  }

  /** The trimmed string is empty exactly when the input is all whitespace. */
  lemma TrimEmpty(s: string)
    ensures Trim(s) == [] <==> forall i :: 0 <= i < |s| ==> IsWs(s[i])
  {
    TrimSpec(s);
  }
}
