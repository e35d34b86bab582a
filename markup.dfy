/**
 * Tag stripping of a link's inner HTML: `replace(/<[^>]*>/g, ' ')`. The
 * pattern matches a `<`, then everything up to the first `>` after it; a
 * `<` with no `>` anywhere after it is not a match and stays.
 */
module Markup {
  import opened JsString
  import opened Whitespace

  /** The index of the first occurrence of `c` in `s`. */
  function IndexOf(s: string, c: char): (k: nat)
    requires c in s
    ensures k < |s| && s[k] == c && c !in s[..k]
  {
    if s[0] == c then 0
    else
      assert c in s[1..];
      var k := IndexOf(s[1..], c);
      assert s[..k + 1] == [s[0]] + s[1..][..k];
      k + 1
  }

  /** No `<` is followed, anywhere later, by a `>`: the string holds no
      complete tag. */
  predicate NoCompleteTag(s: string) {
    forall i, j :: 0 <= i < j < |s| && s[i] == '<' ==> s[j] != '>'
  }

  /** `s.replace(/<[^>]*>/g, ' ')`, scanning left to right: each match is
      replaced by one space and scanning resumes after it. */
  function StripTags(s: string): (r: string)
    decreases |s|
  {
    if s == [] then []
    else if s[0] == '<' && '>' in s[1..] then
      [' '] + StripTags(s[IndexOf(s[1..], '>') + 2..])
    else [s[0]] + StripTags(s[1..])
  }

  /** Text holding no `<` is copied unchanged in front of whatever the rest
      strips to. */
  lemma {:induction false} StripTagsPlainPrefix(a: string, b: string)
    requires '<' !in a
    ensures StripTags(a + b) == a + StripTags(b)
    decreases |a|
  {
    if a == [] {
      assert a + b == b;
    } else {
      var s := a + b;
      assert s[0] == a[0] && s[1..] == a[1..] + b;
      StripTagsPlainPrefix(a[1..], b);
    }
  }

  /** A `<` closed by the first `>` after it is replaced, with everything
      between, by a single space. */
  lemma StripTagsTag(t: string, b: string)
    requires '>' !in t
    ensures StripTags(['<'] + t + ['>'] + b) == [' '] + StripTags(b)
  {
    var s := ['<'] + t + ['>'] + b;
    var rest := s[1..];
    assert rest[|t|] == '>';
    assert forall j :: |t| < j <= |rest| ==> '>' in rest[..j] by {
      forall j | |t| < j <= |rest| ensures '>' in rest[..j] {
        assert rest[..j][|t|] == '>';
      }
    }
    assert forall i :: 0 <= i < |t| ==> rest[i] == t[i];
    var k := IndexOf(rest, '>');
    assert k == |t|;
    assert s[k + 2..] == b;
  }

  /** Stripping introduces no `>`: every `>` of the result comes from the
      input. */
  lemma {:induction false} StripTagsNoNewClose(s: string)
    ensures '>' in StripTags(s) ==> '>' in s
    decreases |s|
  {
    if s != [] {
      if s[0] == '<' && '>' in s[1..] {
        assert '>' in s;
      } else {
        StripTagsNoNewClose(s[1..]);
        assert '>' in s[1..] ==> '>' in s;
      }
    }
  }

  /** Prepending a character keeps the string free of complete tags when it
      is not a `<` that a later `>` closes. */
  lemma NoCompleteTagCons(c: char, t: string)
    requires NoCompleteTag(t) && (c == '<' ==> '>' !in t)
    ensures NoCompleteTag([c] + t)
  {
    var r := [c] + t;
    forall i, j | 0 <= i < j < |r| && r[i] == '<' ensures r[j] != '>' {
      assert r[j] == t[j - 1];
      if i > 0 { assert r[i] == t[i - 1]; }
    }
  }

  /** The stripped markup holds no complete tag. */
  lemma {:induction false} StripTagsNoTag(s: string)
    ensures NoCompleteTag(StripTags(s))
    decreases |s|
  {
    if s != [] {
      if s[0] == '<' && '>' in s[1..] {
        var rest := s[IndexOf(s[1..], '>') + 2..];
        StripTagsNoTag(rest);
        NoCompleteTagCons(' ', StripTags(rest));
      } else {
        StripTagsNoTag(s[1..]);
        StripTagsNoNewClose(s[1..]);
        NoCompleteTagCons(s[0], StripTags(s[1..]));
      }
    }
  }

  /** Markup without a complete tag is left as it is; in particular stripping
      twice is stripping once. */
  lemma {:induction false} StripTagsFixpoint(s: string)
    requires NoCompleteTag(s)
    ensures StripTags(s) == s
    decreases |s|
  {
    if s != [] {
      assert s[0] == '<' ==> '>' !in s[1..] by {
        forall j | 0 <= j < |s[1..]| ensures s[0] == '<' ==> s[1..][j] != '>' {
          assert s[1..][j] == s[j + 1];
        }
      }
      assert NoCompleteTag(s[1..]) by {
        forall i, j | 0 <= i < j < |s[1..]| && s[1..][i] == '<' ensures s[1..][j] != '>' {
          assert s[i + 1] == '<';
        }
      }
      StripTagsFixpoint(s[1..]);
    }
  }

  lemma StripTagsIdempotent(s: string)
    ensures StripTags(StripTags(s)) == StripTags(s)
  {
    StripTagsNoTag(s);
    StripTagsFixpoint(StripTags(s));
  }

  /** Collapsing whitespace keeps every non-whitespace character and adds
      none. */
  lemma {:induction false} CollapseKeepsChars(s: string, c: char)
    requires !IsWs(c)
    ensures c in CollapseWs(s) <==> c in s
    decreases |s|
  {
    if s != [] {
      if IsWs(s[0]) {
        var t := TrimStart(s);
        CollapseKeepsChars(t, c);
        assert c in s <==> c in t by {
          if c in s {
            var k :| 0 <= k < |s| && s[k] == c;
            assert s[k] == t[k - (|s| - |t|)];
          }
        }
      } else {
        CollapseKeepsChars(s[1..], c);
        assert c in s <==> c == s[0] || c in s[1..];
      }
    }
  }

  /** Collapsing whitespace creates no complete tag. */
  lemma {:induction false} CollapseNoTag(s: string)
    requires NoCompleteTag(s)
    ensures NoCompleteTag(CollapseWs(s))
    decreases |s|
  {
    if s != [] {
      assert NoCompleteTag(s[1..]) by {
        forall i, j | 0 <= i < j < |s[1..]| && s[1..][i] == '<' ensures s[1..][j] != '>' {
          assert s[i + 1] == '<';
        }
      }
      if IsWs(s[0]) {
        var t := TrimStart(s);
        assert NoCompleteTag(t) by {
          var d := |s| - |t|;
          forall i, j | 0 <= i < j < |t| && t[i] == '<' ensures t[j] != '>' {
            assert s[i + d] == '<' && t[j] == s[j + d];
          }
        }
        CollapseNoTag(t);
        NoCompleteTagCons(' ', CollapseWs(t));
      } else {
        CollapseNoTag(s[1..]);
        if s[0] == '<' {
          assert '>' !in s[1..] by {
            forall j | 0 <= j < |s[1..]| ensures s[1..][j] != '>' {
              assert s[j + 1] == s[1..][j];
            }
          }
          CollapseKeepsChars(s[1..], '>');
        }
        NoCompleteTagCons(s[0], CollapseWs(s[1..]));
      }
    }
  }

  /** A slice of a string without complete tags has none either. */
  lemma NoCompleteTagSlice(s: string, a: nat, b: nat)
    requires a <= b <= |s| && NoCompleteTag(s)
    ensures NoCompleteTag(s[a..b])
  {
    var r := s[a..b];
    forall i, j | 0 <= i < j < |r| && r[i] == '<' ensures r[j] != '>' {
      assert r[i] == s[a + i] && r[j] == s[a + j];
    }
  }

  /** Normalising whitespace creates no complete tag. */
  lemma NormalizeNoTag(s: string)
    requires NoCompleteTag(s)
    ensures NoCompleteTag(Normalize(s))
  {
    var c := CollapseWs(s);
    CollapseNoTag(s);
    TrimSpec(c);
    NoCompleteTagSlice(c, LeadingWs(c), LeadingWs(c) + |Trim(c)|);
  }
}
