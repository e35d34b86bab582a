/**
 * The whitespace normalisation `replace(/\s+/g, ' ').trim()` applied both to
 * a deal's tag-stripped markup and to the page text, and its reference
 * meaning: the words of the input joined by single spaces.
 */
module Whitespace {
  import opened JsString

  /** `s.replace(/\s+/g, ' ')`: every maximal run of whitespace becomes one
      space; everything else is kept in order. */
  function CollapseWs(s: string): (r: string)
    decreases |s|
    ensures (r == []) == (s == [])
    ensures r != [] ==> (IsWs(r[0]) <==> IsWs(s[0]))
  {
    if s == [] then []
    else if IsWs(s[0]) then [' '] + CollapseWs(TrimStart(s))
    else [s[0]] + CollapseWs(s[1..])
  }

  /** The normalisation used at both call sites: collapse, then `trim`. */
  function Normalize(s: string): string {
    Trim(CollapseWs(s))
  }

  /** A word: a non-empty run of non-whitespace characters. */
  predicate IsWord(w: string) {
    |w| > 0 && forall i :: 0 <= i < |w| ==> !IsWs(w[i])
  }

  /** Every element is a word. */
  predicate AllWords(ws: seq<string>) {
    forall k :: 0 <= k < |ws| ==> IsWord(ws[k])
  }

  lemma AllWordsCons(w: string, ws: seq<string>)
    requires IsWord(w) && AllWords(ws)
    ensures AllWords([w] + ws)
  {
    assert forall k :: 1 <= k <= |ws| ==> ([w] + ws)[k] == ws[k - 1];
  }

  /** The longest whitespace-free prefix of `s`. */
  function TakeWord(s: string): (w: string)
    ensures |w| <= |s| && w == s[..|w|]
    ensures forall i :: 0 <= i < |w| ==> !IsWs(w[i])
    ensures |w| == |s| || IsWs(s[|w|])
  {
    if s == [] || IsWs(s[0]) then [] else [s[0]] + TakeWord(s[1..])
  }

  /** The words of `s` in order: what is left between the whitespace runs. */
  function Words(s: string): (ws: seq<string>)
    decreases |s|
    ensures AllWords(ws)
  {
    var t := TrimStart(s);
    if t == [] then []
    else
      var w := TakeWord(t);
      assert IsWord(w);
      var rest := Words(t[|w|..]);
      AllWordsCons(w, rest);
      [w] + rest
  }

  /** Words separated by single spaces. */
  function Join(ws: seq<string>): string
    decreases |ws|
  {
    if ws == [] then []
    else if |ws| == 1 then ws[0]
    else ws[0] + [' '] + Join(ws[1..])
  }

  /** Every whitespace character is a plain space. */
  predicate OnlySpaces(s: string) {
    forall i :: 0 <= i < |s| && IsWs(s[i]) ==> s[i] == ' '
  }

  /** No two whitespace characters are adjacent. */
  predicate NoAdjacentWs(s: string) {
    forall i :: 0 <= i < |s| - 1 ==> !(IsWs(s[i]) && IsWs(s[i + 1]))
  }

  /** The normal form the normalisation produces. */
  predicate NormalForm(s: string) {
    NoEdgeWs(s) && OnlySpaces(s) && NoAdjacentWs(s)
  }

  /** Concatenation is associative. Stated once here so that the proofs
      below do not leave the solver to rediscover it by sequence
      extensionality inside larger goals. */
  lemma Assoc(a: string, b: string, c: string)
    ensures a + (b + c) == (a + b) + c
  {
  }

  /** Collapsing keeps the leading word as it is. */
  lemma {:induction false} CollapseTakeWord(s: string)
    ensures CollapseWs(s) == TakeWord(s) + CollapseWs(s[|TakeWord(s)|..])
    decreases |s|
  {
    if s == [] {
    } else if IsWs(s[0]) {
      assert TakeWord(s) == [];
      assert s[0..] == s;
    } else {
      var w1 := TakeWord(s[1..]);
      CollapseTakeWord(s[1..]);
      assert s[1..][|w1|..] == s[|w1| + 1..];
      assert TakeWord(s) == [s[0]] + w1;
      assert CollapseWs(s) == [s[0]] + CollapseWs(s[1..]);
      Assoc([s[0]], w1, CollapseWs(s[|w1| + 1..]));
    }
  }

  /** Trailing whitespace of `a + b` is trailing whitespace of `b` when `b`
      starts with a non-whitespace character. */
  lemma {:induction false} TrimEndAppend(a: string, b: string)
    requires b != [] && !IsWs(b[0])
    ensures TrimEnd(a + b) == a + TrimEnd(b)
    decreases |b|
  {
    var ab := a + b;
    if IsWs(b[|b| - 1]) {
      assert ab[..|ab| - 1] == a + b[..|b| - 1];
      TrimEndAppend(a, b[..|b| - 1]);
    }
  }

  /** A leading space disappears under `trim` when what follows is not all
      whitespace. */
  lemma TrimLeadingSpace(x: string)
    requires x != [] && !IsWs(x[0])
    ensures Trim([' '] + x) == Trim(x)
  {
    assert ([' '] + x)[1..] == x;
  }

  /** Leading whitespace changes neither the normalisation nor the words. */
  lemma NormalizeWsHead(s: string)
    requires s != [] && IsWs(s[0])
    ensures Normalize(s) == Normalize(TrimStart(s))
    ensures Words(s) == Words(TrimStart(s))
  {
    var t := TrimStart(s);
    assert CollapseWs(s) == [' '] + CollapseWs(t);
    if t == [] {
      assert Trim([' ']) == [];
    } else {
      TrimLeadingSpace(CollapseWs(t));
    }
  }

  /** `trim` of a word, a space and a string starting with non-whitespace. */
  lemma TrimWordSpace(w: string, x: string)
    requires IsWord(w) && (x == [] || !IsWs(x[0]))
    ensures Trim(w + [' '] + x) == if x == [] then w else w + [' '] + Trim(x)
  {
    var a := w + [' '] + x;
    assert a[0] == w[0];
    assert TrimStart(a) == a;
    if x == [] {
      assert a[..|a| - 1] == w;
      assert TrimEnd(a) == TrimEnd(w);
      assert TrimEnd(w) == w;
    } else {
      TrimEndAppend(w + [' '], x);
      assert TrimStart(x) == x;
    }
  }

  /** The first word of a string that starts with one is its longest
      whitespace-free prefix. */
  lemma WordsWordHead(s: string, w: string, t: string)
    requires s != [] && !IsWs(s[0])
    requires w == TakeWord(s) && t == TrimStart(s[|w|..])
    ensures Words(s) == [w] + Words(t)
  {
    assert TrimStart(s) == s;
    if s[|w|..] != [] {
      NormalizeWsHead(s[|w|..]);
    }
  }

  /** A whitespace run collapses to one space. */
  lemma CollapseWsRun(s: string, t: string)
    requires s != [] && IsWs(s[0]) && t == TrimStart(s)
    ensures CollapseWs(s) == [' '] + CollapseWs(t)
  {
  }

  /** Collapsing a string that is one word keeps it. */
  lemma CollapseWholeWord(s: string, w: string)
    requires w == TakeWord(s) && |w| == |s|
    ensures CollapseWs(s) == w
  {
    CollapseTakeWord(s);
    assert CollapseWs(s[|w|..]) == [];
    assert w + [] == w;
  }

  /** Collapsing a string that starts with a word keeps the word, then one
      space for the whitespace run after it. */
  lemma CollapseWordThenRun(s: string, w: string, t: string)
    requires w == TakeWord(s) && |w| < |s| && t == TrimStart(s[|w|..])
    ensures CollapseWs(s) == w + [' '] + CollapseWs(t)
  {
    CollapseTakeWord(s);
    var rest := s[|w|..];
    assert rest[0] == s[|w|];
    CollapseWsRun(rest, t);
    assert CollapseWs(s) == w + ([' '] + CollapseWs(t));
    Assoc(w, [' '], CollapseWs(t));
  }

  /** A leading word is kept as it is, followed by one space and the
      normalisation of the rest when more words follow. */
  lemma NormalizeWordHead(s: string, w: string, t: string)
    requires s != [] && !IsWs(s[0])
    requires w == TakeWord(s) && t == TrimStart(s[|w|..])
    ensures Normalize(s) == if t == [] then w else w + [' '] + Normalize(t)
  {
    assert IsWord(w);
    if |w| == |s| {
      CollapseWholeWord(s, w);
      assert TrimStart(w) == w;
      assert TrimEnd(w) == w;
    } else {
      CollapseWordThenRun(s, w, t);
      TrimWordSpace(w, CollapseWs(t));
    }
  }

  /** Joining a word in front of other words puts one space between. */
  lemma JoinCons(w: string, ws: seq<string>)
    requires ws != []
    ensures Join([w] + ws) == w + [' '] + Join(ws)
  {
    assert ([w] + ws)[1..] == ws;
  }

  /** Reference meaning of the normalisation: the words of the input joined by
      single spaces. */
  lemma {:induction false} NormalizeIsJoinedWords(s: string)
    ensures Normalize(s) == Join(Words(s))
    decreases |s|
  {
    if s == [] {
      assert CollapseWs(s) == [];
      assert Words(s) == [];
    } else if IsWs(s[0]) {
      var t := TrimStart(s);
      NormalizeWsHead(s);
      if t == [] {
        assert CollapseWs(t) == [];
        assert Words(t) == [];
      } else {
        NormalizeIsJoinedWords(t);
      }
    } else {
      var w := TakeWord(s);
      var t := TrimStart(s[|w|..]);
      WordsWordHead(s, w, t);
      NormalizeWordHead(s, w, t);
      if t == [] {
        assert Words(t) == [];
        assert Words(s) == [w];
      } else {
        NormalizeIsJoinedWords(t);
        assert Words(t) != [] by {
          assert TrimStart(t) == t;
        }
        JoinCons(w, Words(t));
      }
    }
  }

  /** Joining words with single spaces yields the normal form. */
  lemma {:induction false} JoinNormalForm(ws: seq<string>)
    requires AllWords(ws)
    ensures NormalForm(Join(ws))
    ensures ws != [] ==> |Join(ws)| >= |ws[0]| && Join(ws)[..|ws[0]|] == ws[0]
    decreases |ws|
  {
    if |ws| > 1 {
      JoinNormalForm(ws[1..]);
      var w, j := ws[0], Join(ws[1..]);
      var r := w + [' '] + j;
      assert ws[1..][0] == ws[1];
      assert j != [] && !IsWs(j[0]) && !IsWs(j[|j| - 1]);
      forall i | 0 <= i < |r| && IsWs(r[i]) ensures r[i] == ' ' {
        if i > |w| { assert r[i] == j[i - |w| - 1]; }
      }
      forall i | 0 <= i < |r| - 1 ensures !(IsWs(r[i]) && IsWs(r[i + 1])) {
        if i > |w| { assert r[i] == j[i - |w| - 1] && r[i + 1] == j[i - |w|]; }
      }
      assert r[|r| - 1] == j[|j| - 1];
      assert r[..|w|] == w;
    }
  }

  /** The normalisation always produces the normal form: no edge whitespace,
      no two adjacent whitespace characters, and only plain spaces. */
  lemma NormalizeNormalForm(s: string)
    ensures NormalForm(Normalize(s))
  {
    NormalizeIsJoinedWords(s);
    JoinNormalForm(Words(s));
  }

  /** Collapsing leaves a string with only single plain spaces as it is. */
  lemma {:induction false} CollapseFixpoint(s: string)
    requires OnlySpaces(s) && NoAdjacentWs(s)
    ensures CollapseWs(s) == s
    decreases |s|
  {
    if s != [] {
      assert OnlySpaces(s[1..]) && NoAdjacentWs(s[1..]) by {
        assert forall i :: 0 <= i < |s| - 1 ==> s[1..][i] == s[i + 1];
      }
      if IsWs(s[0]) {
        assert |s| > 1 ==> !IsWs(s[1]);
        assert TrimStart(s) == s[1..];
      }
      CollapseFixpoint(s[1..]);
    }
  }

  /** A string already in normal form is its own normalisation. */
  lemma NormalizeFixpoint(s: string)
    requires NormalForm(s)
    ensures Normalize(s) == s
  {
    CollapseFixpoint(s);
    TrimFixpoint(s);
  }

  /** Normalising twice is normalising once. */
  lemma NormalizeIdempotent(s: string)
    ensures Normalize(Normalize(s)) == Normalize(s)
  {
    NormalizeNormalForm(s);
    NormalizeFixpoint(Normalize(s));
  }

  /** A non-empty list is its head followed by its tail; kept as a lemma
      for the same reason as `Assoc`. */
  lemma HeadTail(ws: seq<string>)
    requires ws != []
    ensures ws == [ws[0]] + ws[1..]
  {
  }

  /** Reading back the words of a joined string, one word at a time. */
  lemma WordsOfJoinCons(w: string, rest: seq<string>)
    requires IsWord(w) && AllWords(rest) && rest != []
    requires Words(Join(rest)) == rest
    ensures Words(Join([w] + rest)) == [w] + rest
  {
    var j := Join(rest);
    JoinNormalForm(rest);
    assert rest[0] == ([w] + rest)[1];
    JoinCons(w, rest);
    var s := w + [' '] + j;
    Assoc(w, [' '], j);
    TakeWholeWord(w, [' '] + j);
    assert s[|w|..] == [' '] + j;
    assert ([' '] + j)[1..] == j;
    assert TrimStart([' '] + j) == j;
    assert s[0] == w[0];
    WordsWordHead(s, w, j);
  }

  /** Reading the words back from the joined string gives the same words. */
  lemma {:induction false} WordsOfJoin(ws: seq<string>)
    requires AllWords(ws)
    ensures Words(Join(ws)) == ws
    decreases |ws|
  {
    if ws != [] {
      var w := ws[0];
      assert IsWord(w);
      if |ws| == 1 {
        TakeWholeWord(w, []);
        assert w + [] == w;
        assert w[|w|..] == [];
        WordsWordHead(w, w, []);
      } else {
        assert AllWords(ws[1..]);
        WordsOfJoin(ws[1..]);
        WordsOfJoinCons(w, ws[1..]);
        HeadTail(ws);
      }
    }
  }

  /** A word followed by whitespace or nothing is taken whole. */
  lemma {:induction false} TakeWholeWord(w: string, rest: string)
    requires IsWord(w) && (rest == [] || IsWs(rest[0]))
    ensures TakeWord(w + rest) == w
    decreases |w|
  {
    if |w| > 1 {
      assert (w + rest)[1..] == w[1..] + rest;
      TakeWholeWord(w[1..], rest);
    } else {
      assert (w + rest)[1..] == rest;
    }
  }

  /** Normalisation changes the spacing only: the words are the same. */
  lemma NormalizeKeepsWords(s: string)
    ensures Words(Normalize(s)) == Words(s)
  {
    NormalizeIsJoinedWords(s);
    WordsOfJoin(Words(s));
  }

  /** The normalised text is empty exactly when the input is all
      whitespace. */
  lemma NormalizeEmpty(s: string)
    ensures Normalize(s) == [] <==> forall i :: 0 <= i < |s| ==> IsWs(s[i])
  {
    NormalizeIsJoinedWords(s);
    var t := TrimStart(s);
    var ws := Words(s);
    assert ws == [] <==> t == [];
    if ws != [] {
      JoinNormalForm(ws);
      assert |Join(ws)| >= |ws[0]| > 0;
      assert IsWs(s[|s| - |t|]) == IsWs(t[0]);
    }
  }
}
