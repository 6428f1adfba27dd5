/** `Parser._tokenize` of src/parser.py: the text is split on the pattern
    `[^a-zA-Z0-9]+` and the empty pieces are dropped, which leaves the
    maximal runs of ASCII letters and digits, in order. */
module Tokenizer {
  import opened Text
  import opened Seqs

  predicate AllAlnum(s: string) { forall i :: 0 <= i < |s| ==> IsAlnum(s[i]) }
  predicate NoAlnum(s: string) { forall i :: 0 <= i < |s| ==> !IsAlnum(s[i]) }

  /** Length of the leading run of letters and digits. */
  function AlnumRun(s: string): (n: nat)
    ensures n <= |s|
    ensures forall i :: 0 <= i < n ==> IsAlnum(s[i])
    ensures n < |s| ==> !IsAlnum(s[n])
  {
    if s != [] && IsAlnum(s[0]) then 1 + AlnumRun(s[1..]) else 0
  }

  /** `[t for t in re.split(r'[^a-zA-Z0-9]+', text) if t]` */
  function Tokenize(text: string): (tokens: seq<string>)
    ensures forall k :: 0 <= k < |tokens| ==> tokens[k] != [] && AllAlnum(tokens[k])
    decreases |text|
  {
    if text == [] then []
    else if !IsAlnum(text[0]) then Tokenize(text[1..])
    else
      var n := AlnumRun(text);
      [text[..n]] + Tokenize(text[n..])
  }

  /** The characters of `s` that are letters or digits, in order. */
  function AlnumChars(s: string): (r: string)
    ensures AllAlnum(r)
  {
    if s == [] then []
    else if IsAlnum(s[0]) then [s[0]] + AlnumChars(s[1..])
    else AlnumChars(s[1..])
  }

  lemma {:induction false} AlnumCharsAppend(a: string, b: string)
    ensures AlnumChars(a + b) == AlnumChars(a) + AlnumChars(b)
    decreases |a|
  {
    if a == [] {
      assert a + b == b;
    } else {
      assert (a + b)[1..] == a[1..] + b;
      AlnumCharsAppend(a[1..], b);
    }
  }

  lemma {:induction false} AlnumCharsOfAlnum(s: string)
    requires AllAlnum(s)
    ensures AlnumChars(s) == s
    decreases |s|
  {
    if s != [] {
      AlnumCharsOfAlnum(s[1..]);
    }
  }

  /** Nothing but the separators is lost: the tokens, put together, are
      exactly the letters and digits of the text. */
  lemma {:induction false} TokensKeepAlnum(text: string)
    ensures Concat(Tokenize(text)) == AlnumChars(text)
    decreases |text|
  {
    if text != [] {
      if !IsAlnum(text[0]) {
        TokensKeepAlnum(text[1..]);
      } else {
        var n := AlnumRun(text);
        var rest := Tokenize(text[n..]);
        assert ([text[..n]] + rest)[1..] == rest;
        TokensKeepAlnum(text[n..]);
        assert text == text[..n] + text[n..];
        AlnumCharsAppend(text[..n], text[n..]);
        AlnumCharsOfAlnum(text[..n]);
      }
    }
  }

  /** A text with no letter or digit has no token. */
  lemma {:induction false} TokenizeNoAlnum(g: string)
    requires NoAlnum(g)
    ensures Tokenize(g) == []
    decreases |g|
  {
    if g != [] {
      TokenizeNoAlnum(g[1..]);
    }
  }

  /** A leading run of separators is skipped. */
  lemma {:induction false} TokenizeAfterGap(g: string, b: string)
    requires NoAlnum(g)
    ensures Tokenize(g + b) == Tokenize(b)
    decreases |g|
  {
    if g == [] {
      assert g + b == b;
    } else {
      assert (g + b)[1..] == g[1..] + b;
      TokenizeAfterGap(g[1..], b);
    }
  }

  lemma {:induction false} AlnumRunOfWord(w: string, t: string)
    requires AllAlnum(w)
    requires t == [] || !IsAlnum(t[0])
    ensures AlnumRun(w + t) == |w|
    decreases |w|
  {
    if w != [] {
      assert (w + t)[1..] == w[1..] + t;
      AlnumRunOfWord(w[1..], t);
    } else {
      assert w + t == t;
    }
  }

  /** A single word is its own, only token. */
  lemma TokenizeWord(w: string)
    requires w != [] && AllAlnum(w)
    ensures Tokenize(w) == [w]
  {
    AlnumRunOfWord(w, []);
    assert w + [] == w;
    assert w[|w|..] == [];
  }

  /** Splitting: a non-empty run of separators between two texts keeps
      their tokens apart, so the tokens of the whole are those of the
      first text followed by those of the second. */
  lemma {:induction false} TokenizeSplit(a: string, g: string, b: string)
    requires g != [] && NoAlnum(g)
    ensures Tokenize(a + g + b) == Tokenize(a) + Tokenize(b)
    decreases |a|
  {
    var s := a + g + b;
    if a == [] {
      assert s == g + b;
      TokenizeAfterGap(g, b);
    } else if !IsAlnum(a[0]) {
      assert s[1..] == a[1..] + g + b;
      TokenizeSplit(a[1..], g, b);
    } else {
      var n := AlnumRun(a);
      if n == |a| {
        assert s == a + (g + b);
        AlnumRunOfWord(a, g + b);
        assert s[..n] == a;
        assert s[n..] == g + b;
        TokenizeAfterGap(g, b);
        TokenizeWord(a);
      } else {
        var rest := a[n..];
        assert a == a[..n] + rest;
        assert !IsAlnum(rest[0]);
        AlnumRunOfWord(a[..n], rest + g + b);
        assert s == a[..n] + (rest + g + b);
        assert s[..n] == a[..n];
        assert s[n..] == rest + g + b;
        TokenizeSplit(rest, g, b);
        AlnumRunOfWord(a[..n], rest);
      }
    }
  }
}
