/**
 * The text side of `wordcount()`: Python's `str.split()` with no argument
 * (split on runs of whitespace, no empty tokens), `str.lower()` on ASCII
 * letters, and the frequency table the counting loop builds.
 */
module Words {

  /** The characters Python's `str.isspace()` accepts, which are what `str.split()` splits on. */
  predicate IsSpace(c: char) {
    c in {
      '\U{9}', '\U{A}', '\U{B}', '\U{C}', '\U{D}', '\U{1C}', '\U{1D}', '\U{1E}',
      '\U{1F}', '\U{20}', '\U{85}', '\U{A0}', '\U{1680}', '\U{2000}', '\U{2001}', '\U{2002}',
      '\U{2003}', '\U{2004}', '\U{2005}', '\U{2006}', '\U{2007}', '\U{2008}', '\U{2009}', '\U{200A}',
      '\U{2028}', '\U{2029}', '\U{202F}', '\U{205F}', '\U{3000}'
    }
  }

  predicate NoSpace(w: string) {
    forall i :: 0 <= i < |w| ==> !IsSpace(w[i])
  }

  /** A token `split()` can produce: non-empty, without whitespace. */
  predicate IsToken(w: string) {
    w != [] && NoSpace(w)
  }

  /** The longest whitespace-free prefix of `s`. */
  function Word(s: string): (w: string)
    ensures w <= s && NoSpace(w)
    ensures |w| < |s| ==> IsSpace(s[|w|])
  {
    if s == [] || IsSpace(s[0]) then [] else [s[0]] + Word(s[1..])
  }

  /** `s.split()`. */
  function Split(s: string): seq<string>
    decreases |s|
  {
    if s == [] then []
    else if IsSpace(s[0]) then Split(s[1..])
    else
      var w := Word(s);
      [w] + Split(s[|w|..])
  }

  /** Every token of `split()` is non-empty and free of whitespace. */
  lemma {:induction false} SplitTokens(s: string)
    ensures forall w :: w in Split(s) ==> IsToken(w)
    decreases |s|
  {
    if s != [] {
      if IsSpace(s[0]) {
        SplitTokens(s[1..]);
      } else {
        var w := Word(s);
        SplitTokens(s[|w|..]);
      }
    }
  }

  /** Single spaces between tokens. */
  function Join(ws: seq<string>): string {
    if ws == [] then []
    else if |ws| == 1 then ws[0]
    else ws[0] + " " + Join(ws[1..])
  }

  lemma {:induction false} WordOfToken(w: string, rest: string)
    requires NoSpace(w)
    requires rest == [] || IsSpace(rest[0])
    ensures Word(w + rest) == w
    decreases |w|
  {
    if w != [] {
      assert (w + rest)[1..] == w[1..] + rest;
      WordOfToken(w[1..], rest);
    } else {
      assert w + rest == rest;
    }
  }

  /** Splitting a space-joined list of tokens gives the tokens back. */
  lemma {:induction false} SplitJoin(ws: seq<string>)
    requires forall w :: w in ws ==> IsToken(w)
    ensures Split(Join(ws)) == ws
  {
    if ws != [] {
      assert ws[0] in ws;
    }
    if |ws| == 1 {
      WordOfToken(ws[0], []);
      assert ws[0] + [] == ws[0];
      assert Join(ws)[|ws[0]|..] == [];
    } else if |ws| > 1 {
      var rest := " " + Join(ws[1..]);
      assert Join(ws) == ws[0] + rest;
      assert Join(ws)[0] == ws[0][0];
      WordOfToken(ws[0], rest);
      assert Join(ws)[|ws[0]|..] == rest;
      assert rest[1..] == Join(ws[1..]);
      SplitJoin(ws[1..]);
    }
  }

  /** The characters of `s` that are not whitespace, in order. */
  function NonSpace(s: string): string {
    if s == [] then [] else (if IsSpace(s[0]) then [] else [s[0]]) + NonSpace(s[1..])
  }

  /** The tokens written one after the other. */
  function Concat(ws: seq<string>): string {
    if ws == [] then [] else ws[0] + Concat(ws[1..])
  }

  lemma {:induction false} NonSpaceAppend(a: string, b: string)
    ensures NonSpace(a + b) == NonSpace(a) + NonSpace(b)
  {
    if a == [] {
      assert a + b == b;
    } else {
      assert (a + b)[1..] == a[1..] + b;
      NonSpaceAppend(a[1..], b);
    }
  }

  lemma {:induction false} NonSpaceOfNoSpace(w: string)
    requires NoSpace(w)
    ensures NonSpace(w) == w
  {
    if w != [] {
      NonSpaceOfNoSpace(w[1..]);
    }
  }

  /** `split()` drops exactly the whitespace: its tokens, written together, are the other characters of `s`. */
  lemma {:induction false} SplitKeepsCharacters(s: string)
    ensures Concat(Split(s)) == NonSpace(s)
    decreases |s|
  {
    if s != [] {
      if IsSpace(s[0]) {
        SplitKeepsCharacters(s[1..]);
      } else {
        var w := Word(s);
        var rest := s[|w|..];
        SplitKeepsCharacters(rest);
        assert s == w + rest;
        NonSpaceAppend(w, rest);
        NonSpaceOfNoSpace(w);
        assert ([w] + Split(rest))[1..] == Split(rest);
      }
    }
  }

  /** A word stops at the first whitespace character. */
  lemma {:induction false} WordPrefix(a: string, x: string)
    requires x == [] || IsSpace(x[0])
    ensures Word(a + x) == Word(a)
  {
    if a == [] {
      assert a + x == x;
    } else if !IsSpace(a[0]) {
      assert (a + x)[1..] == a[1..] + x;
      WordPrefix(a[1..], x);
    }
  }

  /** Any whitespace character separates tokens: the tokens on its two sides are split apart. */
  lemma {:induction false} SplitAtSpace(a: string, c: char, b: string)
    requires IsSpace(c)
    ensures Split(a + [c] + b) == Split(a) + Split(b)
    decreases |a|
  {
    var s := a + [c] + b;
    if a == [] {
      assert s[1..] == b;
    } else if IsSpace(a[0]) {
      assert s[1..] == a[1..] + [c] + b;
      SplitAtSpace(a[1..], c, b);
    } else {
      WordPrefix(a, [c] + b);
      assert s == a + ([c] + b);
      var w := Word(a);
      assert s[|w|..] == a[|w|..] + [c] + b;
      SplitAtSpace(a[|w|..], c, b);
    }
  }

  function LowerChar(c: char): char {
    if 'A' <= c <= 'Z' then (c as int + 32) as char else c
  }

  /** `w.lower()` on ASCII letters. */
  function Lower(w: string): (r: string)
    ensures |r| == |w|
    ensures forall i :: 0 <= i < |w| ==> r[i] == LowerChar(w[i])
  {
    if w == [] then [] else [LowerChar(w[0])] + Lower(w[1..])
  }

  /** Lowering one character keeps whitespace whitespace, is idempotent and leaves no ASCII capital. */
  lemma LowerCharFacts(c: char)
    ensures IsSpace(LowerChar(c)) == IsSpace(c)
    ensures LowerChar(LowerChar(c)) == LowerChar(c)
    ensures !('A' <= LowerChar(c) <= 'Z')
  {
    if 'A' <= c <= 'Z' {
      assert !IsSpace(c) && !IsSpace(LowerChar(c));
    }
  }

  /** Lowering changes no whitespace, so it keeps tokens tokens, and it is idempotent. */
  lemma LowerKeepsTokens(w: string)
    ensures IsToken(w) ==> IsToken(Lower(w))
    ensures Lower(Lower(w)) == Lower(w)
    ensures forall i :: 0 <= i < |w| ==> !('A' <= Lower(w)[i] <= 'Z')
  {
    forall i | 0 <= i < |w|
      ensures IsSpace(Lower(w)[i]) == IsSpace(w[i])
      ensures Lower(Lower(w))[i] == Lower(w)[i]
    {
      LowerCharFacts(w[i]);
    }
  }

  function LowerAll(ws: seq<string>): (r: seq<string>)
    ensures |r| == |ws|
    ensures forall i :: 0 <= i < |ws| ==> r[i] == Lower(ws[i])
  {
    if ws == [] then [] else [Lower(ws[0])] + LowerAll(ws[1..])
  }

  /** The comprehension `[word.lower() for word in text.split()]`. */
  function Tokens(text: string): seq<string> {
    LowerAll(Split(text))
  }

  /** Every word `wordcount()` counts is a lower-cased token. */
  lemma TokensAreLowerTokens(text: string)
    ensures forall w :: w in Tokens(text) ==> IsToken(w) && Lower(w) == w
  {
    SplitTokens(text);
    var ws := Split(text);
    forall w | w in Tokens(text) ensures IsToken(w) && Lower(w) == w {
      var i :| 0 <= i < |ws| && Tokens(text)[i] == w;
      LowerKeepsTokens(ws[i]);
    }
  }

  /** The table the counting loop has built after the words `ws`. */
  function Frequencies(ws: seq<string>): map<string, nat>
  {
    if ws == [] then map[]
    else
      var m := Frequencies(ws[..|ws| - 1]);
      var w := ws[|ws| - 1];
      m[w := if w in m then m[w] + 1 else 1]
  }

  /** The loop step behind `Frequencies`: counting `ws[i]` after the prefix `ws[..i]`. */
  lemma FrequenciesPrefix(ws: seq<string>, i: nat)
    requires i < |ws|
    ensures Frequencies(ws[..i + 1])
            == Frequencies(ws[..i])[ws[i] := if ws[i] in Frequencies(ws[..i]) then Frequencies(ws[..i])[ws[i]] + 1 else 1]
  {
    assert ws[..i + 1][..i] == ws[..i];
  }

  /** The keys are exactly the words, and each count is the word's number of occurrences. */
  lemma {:induction false} FrequenciesCount(ws: seq<string>)
    ensures forall w :: w in Frequencies(ws) <==> w in ws
    ensures forall w :: w in Frequencies(ws) ==> Frequencies(ws)[w] == multiset(ws)[w] >= 1
  {
    if ws != [] {
      var init, last := ws[..|ws| - 1], ws[|ws| - 1];
      assert ws == init + [last];
      FrequenciesCount(init);
    }
  }

  /** The sum of the values of a table. */
  ghost function Total(m: map<string, nat>): nat
    decreases |m|
  {
    if m == map[] then 0
    else
      var k :| k in m;
      m[k] + Total(m - {k})
  }

  /** `Total` does not depend on which key it takes first. */
  lemma {:induction false} TotalRemove(m: map<string, nat>, k: string)
    requires k in m
    ensures Total(m) == m[k] + Total(m - {k})
    decreases |m|
  {
    var j :| j in m && Total(m) == m[j] + Total(m - {j});
    if j != k {
      var mj, mk := m - {j}, m - {k};
      assert |mj| < |m| && |mk| < |m| by {
        assert mj.Keys == m.Keys - {j} && mk.Keys == m.Keys - {k};
      }
      TotalRemove(mj, k);
      TotalRemove(mk, j);
      assert mj - {k} == mk - {j};
    }
  }

  lemma TotalUpdate(m: map<string, nat>, k: string, v: nat)
    ensures Total(m[k := v]) + (if k in m then m[k] else 0) == Total(m) + v
  {
    var m' := m[k := v];
    TotalRemove(m', k);
    assert m' - {k} == m - {k};
    if k in m {
      TotalRemove(m, k);
    } else {
      assert m - {k} == m;
    }
  }

  /** The counts add up to the number of words. */
  lemma {:induction false} FrequenciesTotal(ws: seq<string>)
    ensures Total(Frequencies(ws)) == |ws|
  {
    if ws != [] {
      var init, w := ws[..|ws| - 1], ws[|ws| - 1];
      FrequenciesTotal(init);
      var m := Frequencies(init);
      TotalUpdate(m, w, if w in m then m[w] + 1 else 1);
    }
  }
}
