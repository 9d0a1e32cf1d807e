/** The Rust source masker: one pass that blanks comments and literals and hides raw identifiers, so
    that policy patterns see only code, at the offsets and lines of the source. */
module Masker {
  import opened Commons

  /** Which characters outside ASCII are alphanumeric; the masker works for any answer. */
  type Wide = char -> bool

  predicate IsWord(wide: Wide, c: char) {
    || c == '_' || '0' <= c <= '9' || 'a' <= c <= 'z' || 'A' <= c <= 'Z'
    || (c as int >= 128 && wide(c))
  }

  // ----- Lengths of literals, comments and words at the start of a text -----

  predicate Opens(s: string, a: char, b: char) { |s| >= 2 && s[0] == a && s[1] == b }

  /** Up to, not including, the end of the line. */
  function LineLen(s: string): (n: nat)
    ensures n <= |s|
  {
    if s == [] || s[0] == '\n' then 0 else 1 + LineLen(s[1..])
  }

  /** The rest of a block comment that is open `depth` times; all of `s` if it never closes. */
  function BlockLen(s: string, depth: nat): (n: nat)
    ensures n <= |s|
    decreases |s|
  {
    if s == [] then 0
    else if Opens(s, '/', '*') then 2 + BlockLen(s[2..], depth + 1)
    else if Opens(s, '*', '/') then if depth <= 1 then 2 else 2 + BlockLen(s[2..], depth - 1)
    else 1 + BlockLen(s[1..], depth)
  }

  /** The rest of a string literal after its opening quote. */
  function QuotedLen(s: string): (n: nat)
    ensures n <= |s|
    decreases |s|
  {
    if s == [] then 0
    else if s[0] == '\\' then if |s| >= 2 then 2 + QuotedLen(s[2..]) else 1
    else if s[0] == '"' then 1
    else 1 + QuotedLen(s[1..])
  }

  /** Characters before the first quote or line end. */
  function CharRun(s: string): (n: nat)
    ensures n <= |s|
    ensures n < |s| ==> s[n] == '\'' || s[n] == '\n'
    ensures forall i | 0 <= i < n :: s[i] != '\'' && s[i] != '\n'
  {
    if s == [] || s[0] == '\'' || s[0] == '\n' then 0 else 1 + CharRun(s[1..])
  }

  /** The character literal at a quote, or `None` when the quote opens a lifetime or label. */
  function CharLen(s: string): (n: Option<nat>)
    requires s != [] && s[0] == '\''
    ensures n.Some? ==> 3 <= n.value <= |s|
  {
    if |s| < 2 then None
    else if s[1] == '\\' then
      if |s| <= 3 then None
      else
        var end := 3 + CharRun(s[3..]);
        if end < |s| && s[end] == '\'' then Some(end + 1) else None
    else if s[1] != '\'' && |s| > 2 && s[2] == '\'' then Some(3)
    else None
  }

  predicate AllHashes(s: string) { forall i | 0 <= i < |s| :: s[i] == '#' }

  /** A quote and `hashes` hashes, which end a raw string that opened with as many. */
  predicate ClosesRaw(s: string, hashes: nat) {
    |s| >= 1 + hashes && s[0] == '"' && AllHashes(s[1..1 + hashes])
  }

  /** The rest of a raw string after its opening quote. */
  function RawLen(s: string, hashes: nat): (n: nat)
    ensures n <= |s|
  {
    if |s| < 1 + hashes then |s|
    else if ClosesRaw(s, hashes) then 1 + hashes
    else 1 + RawLen(s[1..], hashes)
  }

  function HashLen(s: string): (n: nat)
    ensures n <= |s| && AllHashes(s[..n]) && (n < |s| ==> s[n] != '#')
  {
    if s == [] || s[0] != '#' then 0 else 1 + HashLen(s[1..])
  }

  function WordLen(wide: Wide, s: string): (n: nat)
    ensures n <= |s| && (n < |s| ==> !IsWord(wide, s[n]))
    ensures forall i | 0 <= i < n :: IsWord(wide, s[i])
  {
    if s == [] || !IsWord(wide, s[0]) then 0 else 1 + WordLen(wide, s[1..])
  }

  // ----- Tokens -----

  datatype Mode = Keep | Ident | Blank

  datatype Token = Token(length: nat, mode: Mode)

  predicate RawPrefix(word: string) { word == "r" || word == "br" || word == "cr" }

  /** The token at a word: a raw string, a raw identifier, a prefixed literal or the word itself. */
  function WordToken(wide: Wide, s: string): (t: Token)
    requires s != [] && IsWord(wide, s[0])
    ensures 0 < t.length <= |s|
  {
    var w := WordLen(wide, s);
    var word, rest := s[..w], s[w..];
    var quote := HashLen(rest);
    if RawPrefix(word) && quote < |rest| && rest[quote] == '"' then
      Token(w + quote + 1 + RawLen(rest[quote + 1..], quote), Blank)
    else if word == "r" && quote == 1 && quote < |rest| && IsWord(wide, rest[quote]) then
      Token(w + quote + WordLen(wide, rest[quote..]), Ident)
    else if (word == "b" || word == "c") && rest != [] && rest[0] == '"' then
      Token(w + 1 + QuotedLen(rest[1..]), Blank)
    else if word == "b" && rest != [] && rest[0] == '\'' && CharLen(rest).Some? then
      Token(w + CharLen(rest).value, Blank)
    else Token(w, Keep)
  }

  /** The token at the start of `s`. */
  function NextToken(wide: Wide, s: string): (t: Token)
    requires s != []
    ensures 0 < t.length <= |s|
  {
    if Opens(s, '/', '/') then Token(LineLen(s), Blank)
    else if Opens(s, '/', '*') then Token(2 + BlockLen(s[2..], 1), Blank)
    else if IsWord(wide, s[0]) then WordToken(wide, s)
    else if s[0] == '"' then Token(1 + QuotedLen(s[1..]), Blank)
    else if s[0] == '\'' then
      match CharLen(s)
      case None => Token(1, Keep)
      case Some(n) => Token(n, Blank)
    else Token(1, Keep)
  }

  /** Line breaks stay, everything else becomes a space. */
  function Blanked(s: string): (r: string)
    ensures |r| == |s|
  {
    seq(|s|, i requires 0 <= i < |s| => if s[i] == '\n' then '\n' else ' ')
  }

  function Underscores(n: nat): (r: string)
    ensures |r| == n
  {
    seq(n, i => '_')
  }

  function Rendered(s: string, mode: Mode): (r: string)
    ensures |r| == |s|
  {
    match mode
    case Keep => s
    case Ident => Underscores(|s|)
    case Blank => Blanked(s)
  }

  /** The masked text. */
  function Mask(wide: Wide, s: string): (r: string)
    ensures |r| == |s|
    decreases |s|
  {
    if s == [] then []
    else
      var t := NextToken(wide, s);
      Rendered(s[..t.length], t.mode) + Mask(wide, s[t.length..])
  }

  // ----- Masked text lines up with its source -----

  /** `r` is `s` with some characters hidden: line breaks stay where they are, nothing appears but
      spaces and underscores, and no string quote is left. */
  predicate Shadows(r: string, s: string) {
    && |r| == |s|
    && forall i | 0 <= i < |s| ::
         && (r[i] == '\n' <==> s[i] == '\n')
         && (r[i] == s[i] || r[i] == ' ' || r[i] == '_')
         && r[i] != '"'
  }

  lemma ShadowsConcat(r: string, s: string, r': string, s': string)
    requires Shadows(r, s) && Shadows(r', s')
    ensures Shadows(r + r', s + s')
  {
  }

  lemma WordsHaveNoQuotes(wide: Wide, s: string)
    ensures forall i | 0 <= i < WordLen(wide, s) :: s[i] != '"' && s[i] != '\n'
  {
  }

  lemma PieceShadows(piece: string, mode: Mode)
    requires mode == Keep ==> '"' !in piece
    requires mode == Ident ==> '\n' !in piece
    ensures Shadows(Rendered(piece, mode), piece)
  {
  }

  lemma KeptHasNoQuote(wide: Wide, s: string)
    requires s != [] && NextToken(wide, s).mode == Keep
    ensures forall i | 0 <= i < NextToken(wide, s).length :: s[i] != '"'
  {
    hide BlockLen, QuotedLen, RawLen, HashLen, LineLen, WordLen;
    WordsHaveNoQuotes(wide, s);
  }

  /** A raw identifier is `r#` and a word. */
  lemma IdentIs(wide: Wide, s: string)
    requires s != [] && NextToken(wide, s).mode == Ident
    ensures |s| >= 3 && s[0] == 'r' && s[1] == '#' && IsWord(wide, s[2])
    ensures NextToken(wide, s).length == 2 + WordLen(wide, s[2..])
  {
    hide BlockLen, QuotedLen, RawLen, LineLen, WordLen, CharLen, IsWord;
    var w := WordLen(wide, s);
    assert s[..w] == "r";
    var rest := s[w..];
    assert s[0] == s[..w][0] && rest[..1] == rest[..HashLen(rest)];
    assert rest[0] == rest[..1][0] && rest[1..] == s[2..];
  }

  lemma IdentHasNoLineBreak(wide: Wide, s: string)
    requires s != [] && NextToken(wide, s).mode == Ident
    ensures forall i | 0 <= i < NextToken(wide, s).length :: s[i] != '\n'
  {
    hide NextToken, WordLen;
    IdentIs(wide, s);
    WordsHaveNoQuotes(wide, s[2..]);
    forall i | 2 <= i < NextToken(wide, s).length ensures s[i] != '\n' {
      assert s[2..][i - 2] == s[i];
    }
  }

  /** What is kept holds no string quote; what becomes underscores holds no line break. */
  lemma TokenShadows(wide: Wide, s: string)
    requires s != []
    ensures var t := NextToken(wide, s); Shadows(Rendered(s[..t.length], t.mode), s[..t.length])
  {
    hide NextToken, Rendered, Shadows;
    var t := NextToken(wide, s);
    if t.mode == Ident {
      IdentHasNoLineBreak(wide, s);
    } else if t.mode == Keep {
      KeptHasNoQuote(wide, s);
    }
    PieceShadows(s[..t.length], t.mode);
  }

  lemma {:induction false} MaskShadows(wide: Wide, s: string)
    ensures Shadows(Mask(wide, s), s)
    decreases |s|
  {
    hide NextToken, Shadows, Rendered;
    if s == [] {
      NothingShadows();
    } else {
      var n := NextToken(wide, s).length;
      TokenShadows(wide, s);
      MaskShadows(wide, s[n..]);
      ShadowsConcat(Rendered(s[..n], NextToken(wide, s).mode), s[..n], Mask(wide, s[n..]), s[n..]);
      assert s == s[..n] + s[n..];
    }
  }

  lemma NothingShadows()
    ensures Shadows([], [])
  {
  }

  // ----- Masking is idempotent -----

  /** How the masked text starts, given how the text starts. */
  lemma MaskStart(wide: Wide, s: string)
    requires s != []
    ensures var r := Mask(wide, s);
      && (IsWord(wide, r[0]) ==> IsWord(wide, s[0]))
      && (s[0] == '\\' || s[0] == '#' ==> r[0] == s[0] && r[1..] == Mask(wide, s[1..]))
      && (s[0] == '\'' && r[0] == '\'' ==> CharLen(s) == None && r[1..] == Mask(wide, s[1..]))
      && (s[0] == '\'' && r[0] != '\'' && |r| > 1 ==> r[1] != '\'')
  {
    hide BlockLen, QuotedLen, RawLen, CharRun, LineLen, CharLen;
    var t := NextToken(wide, s);
    var r := Mask(wide, s);
    var head := Rendered(s[..t.length], t.mode);
    assert r[0] == head[0];
    if s[0] == '\\' || s[0] == '#' || (s[0] == '\'' && CharLen(s) == None) {
      assert t == Token(1, Keep);
      assert head == [s[0]];
      assert r[1..] == Mask(wide, s[1..]);
    } else if s[0] == '\'' {
      assert t == Token(CharLen(s).value, Blank);
      assert r[1] == head[1];
    }
  }

  lemma {:induction false} MaskKeepsHashes(wide: Wide, s: string)
    ensures var h := HashLen(s);
      HashLen(Mask(wide, s)) == h && Mask(wide, s)[h..] == Mask(wide, s[h..])
    decreases |s|
  {
    var r := Mask(wide, s);
    if s != [] {
      MaskStart(wide, s);
      if s[0] == '#' {
        hide NextToken;
        MaskKeepsHashes(wide, s[1..]);
        var h := HashLen(s[1..]);
        assert r[1..][h..] == r[h + 1..];
        assert s[1..][h..] == s[h + 1..];
      } else {
        hide NextToken;
        MaskShadows(wide, s);
      }
    }
  }

  lemma NoQuoteBeforeLineEnd(r: string, s: string)
    requires Shadows(r, s) && (CharRun(s) < |s| ==> s[CharRun(s)] != '\'')
    ensures CharRun(r) < |r| ==> r[CharRun(r)] != '\''
  {
    var m := CharRun(s);
    if m < |s| {
      assert r[m] == '\n';
    }
  }

  /** A quote before a backslash that opens no literal still opens none. */
  lemma EscapedLifetimeStays(r: string, t: string)
    requires Shadows(r, t) && t != [] && t[0] == r[0] == '\\' && CharLen(['\''] + t) == None
    ensures CharLen(['\''] + r) == None
  {
    hide CharRun, Shadows;
    var q, p := ['\''] + r, ['\''] + t;
    assert |r| == |t| by { ShadowLength(r, t); }
    if |t| > 2 {
      assert q[3..] == r[2..] && p[3..] == t[2..];
      ShadowsDrop(r, t, 2);
      NoQuoteBeforeLineEnd(r[2..], t[2..]);
    }
  }

  lemma ShadowLength(r: string, t: string)
    requires Shadows(r, t)
    ensures |r| == |t|
  {
  }

  lemma ShadowsDrop(r: string, t: string, n: nat)
    requires Shadows(r, t) && n <= |t|
    ensures Shadows(r[n..], t[n..])
  {
  }

  /** A lifetime quote is still one after the text behind it is masked. */
  lemma LifetimeStays(wide: Wide, s: string)
    requires s != [] && s[0] == '\'' && CharLen(s) == None
    ensures CharLen(['\''] + Mask(wide, s[1..])) == None
  {
    var t := s[1..];
    var r := Mask(wide, t);
    var q := ['\''] + r;
    hide Mask, CharRun;
    assert s == ['\''] + t;
    MaskShadows(wide, t);
    if t != [] {
      MaskStart(wide, t);
      if t[0] == '\\' {
        hide CharLen;
        EscapedLifetimeStays(r, t);
      } else {
        assert q[1] == r[0] != '\\';
        assert |t| > 1 ==> q[2] == r[1] && s[2] == t[1];
      }
    }
  }

  lemma WordLenIs(wide: Wide, s: string, n: nat)
    requires n <= |s| && (n < |s| ==> !IsWord(wide, s[n])) && forall i | 0 <= i < n :: IsWord(wide, s[i])
    ensures WordLen(wide, s) == n
  {
    hide WordLen, IsWord;
  }

  /** What decides a token at a word, in the text behind the word: the masked text decides no more
      than the text did. */
  predicate NoMoreLiteral(wide: Wide, r: string, t: string) {
    && |r| == |t| && HashLen(r) == HashLen(t)
    && (r != [] ==> r[0] != '"')
    && (HashLen(r) < |r| ==> r[HashLen(r)] != '"' && (IsWord(wide, r[HashLen(r)]) ==> IsWord(wide, t[HashLen(t)])))
    && (r != [] && r[0] == '\'' ==> t[0] == '\'' && (CharLen(t) == None ==> CharLen(r) == None))
  }

  lemma MaskDecidesNoMore(wide: Wide, t: string)
    ensures NoMoreLiteral(wide, Mask(wide, t), t)
  {
    hide Mask, CharLen, IsWord, HashLen;
    var r := Mask(wide, t);
    MaskShadows(wide, t);
    MaskKeepsHashes(wide, t);
    var h := HashLen(t);
    if h < |t| {
      MaskStart(wide, t[h..]);
      assert r[h] == r[h..][0] && t[h] == t[h..][0];
    }
    if r != [] && r[0] == '\'' {
      MaskStart(wide, t);
      if CharLen(t) == None {
        LifetimeStays(wide, t);
        assert r == ['\''] + r[1..];
      }
    }
  }

  lemma WordTokenStays(wide: Wide, s: string, q: string)
    requires s != [] && q != [] && IsWord(wide, s[0]) && IsWord(wide, q[0])
    requires WordToken(wide, s).mode == Keep
    requires WordLen(wide, q) == WordLen(wide, s) && q[..WordLen(wide, q)] == s[..WordLen(wide, s)]
    requires NoMoreLiteral(wide, q[WordLen(wide, q)..], s[WordLen(wide, s)..])
    ensures WordToken(wide, q) == Token(WordLen(wide, s), Keep)
  {
    hide RawLen, QuotedLen, HashLen, WordLen, CharLen, IsWord;
  }

  /** A kept word is kept again when the text behind it is masked. */
  lemma WordStays(wide: Wide, s: string)
    requires s != [] && IsWord(wide, s[0]) && WordToken(wide, s).mode == Keep
    ensures var w := WordLen(wide, s);
      var q := s[..w] + Mask(wide, s[w..]);
      w > 0 && IsWord(wide, q[0]) && WordToken(wide, q) == Token(w, Keep)
  {
    hide Mask, WordToken, WordLen, IsWord, NoMoreLiteral;
    var w := WordLen(wide, s);
    var t := s[w..];
    var r := Mask(wide, t);
    var q := s[..w] + r;
    assert w > 0;
    assert q[..w] == s[..w] && q[w..] == r && q[0] == s[0];
    if t != [] {
      MaskStart(wide, t);
    }
    WordLenIs(wide, q, w);
    MaskDecidesNoMore(wide, t);
    WordTokenStays(wide, s, q);
  }

  predicate AllBlank(s: string) { forall i | 0 <= i < |s| :: s[i] == ' ' || s[i] == '\n' }

  lemma BlankIsKept(wide: Wide, s: string)
    requires s != [] && (s[0] == ' ' || s[0] == '\n')
    ensures NextToken(wide, s) == Token(1, Keep)
  {
  }

  /** The token is kept again, unless it was hidden. */
  lemma KeptTokenIsKept(wide: Wide, s: string)
    requires s != [] && NextToken(wide, s).mode == Keep
    ensures var n := NextToken(wide, s).length;
      NextToken(wide, s[..n] + Mask(wide, s[n..])) == Token(n, Keep)
  {
    hide Mask, WordToken, BlockLen, QuotedLen, LineLen;
    var n := NextToken(wide, s).length;
    var t := s[n..];
    var r := Mask(wide, t);
    var q := s[..n] + r;
    MaskShadows(wide, t);
    assert q[0] == s[0];
    if IsWord(wide, s[0]) {
      KeptWordLength(wide, s);
      WordStays(wide, s);
    } else if s[0] == '\'' {
      assert q == ['\''] + r && t == s[1..];
      LifetimeStays(wide, s);
    } else {
      assert s[0] == '/' && r != [] ==> q[1] == r[0] && s[1] == t[0];
    }
  }

  lemma KeptWordLength(wide: Wide, s: string)
    requires s != [] && IsWord(wide, s[0]) && WordToken(wide, s).mode == Keep
    ensures WordToken(wide, s).length == WordLen(wide, s)
  {
    hide RawLen, QuotedLen, HashLen, WordLen, CharLen, IsWord;
  }

  /** A hidden raw identifier is an ordinary word. */
  lemma HiddenIdentifierIsKept(wide: Wide, s: string)
    requires s != [] && NextToken(wide, s).mode == Ident
    ensures var n := NextToken(wide, s).length;
      NextToken(wide, Underscores(n) + Mask(wide, s[n..])) == Token(n, Keep)
  {
    hide Mask, BlockLen, QuotedLen, LineLen, RawLen, CharLen;
    var n := NextToken(wide, s).length;
    var t := s[n..];
    var q := Underscores(n) + Mask(wide, t);
    IdentEnds(wide, s);
    if t != [] {
      MaskStart(wide, t);
    }
    assert forall i | 0 <= i < n :: q[i] == '_';
    assert n < |q| ==> q[n] == Mask(wide, t)[0];
    WordLenIs(wide, q, n);
    assert q[..n][0] == '_';
  }

  lemma IdentEnds(wide: Wide, s: string)
    requires s != [] && NextToken(wide, s).mode == Ident
    ensures var n := NextToken(wide, s).length; n >= 2 && (n < |s| ==> !IsWord(wide, s[n]))
  {
    hide NextToken, WordLen, IsWord;
    IdentIs(wide, s);
    var name := s[2..];
    WordStarts(wide, name);
    var n := 2 + WordLen(wide, name);
    assert n < |s| ==> s[n] == name[n - 2];
  }

  lemma WordStarts(wide: Wide, s: string)
    ensures var n := WordLen(wide, s); (n < |s| ==> !IsWord(wide, s[n])) && (s != [] && IsWord(wide, s[0]) ==> n >= 1)
  {
    hide IsWord;
  }

  /** No token of `s` is a comment, a literal or a raw identifier. */
  predicate AllKept(wide: Wide, s: string)
    decreases |s|
  {
    s == [] || (NextToken(wide, s).mode == Keep && AllKept(wide, s[NextToken(wide, s).length..]))
  }

  lemma {:induction false} AllKeptIsFixed(wide: Wide, s: string)
    requires AllKept(wide, s)
    ensures Mask(wide, s) == s
    decreases |s|
  {
    hide NextToken;
    if s != [] {
      var n := NextToken(wide, s).length;
      AllKeptIsFixed(wide, s[n..]);
      assert s == s[..n] + s[n..];
    }
  }

  lemma KeptThenKept(wide: Wide, head: string, r: string)
    requires head != [] && AllKept(wide, r) && NextToken(wide, head + r) == Token(|head|, Keep)
    ensures AllKept(wide, head + r)
  {
    hide NextToken;
    assert (head + r)[|head|..] == r;
  }

  lemma {:induction false} BlanksThenKept(wide: Wide, b: string, r: string)
    requires AllBlank(b) && AllKept(wide, r)
    ensures AllKept(wide, b + r)
    decreases |b|
  {
    hide AllKept, NextToken;
    if b == [] {
      assert b + r == r;
    } else {
      BlanksThenKept(wide, b[1..], r);
      assert b + r == [b[0]] + (b[1..] + r);
      BlankIsKept(wide, b + r);
      KeptThenKept(wide, [b[0]], b[1..] + r);
    }
  }

  /** Masked text is all code: no comment, literal or raw identifier is left in it, or appears by
      hiding one. */
  lemma {:induction false} MaskIsAllKept(wide: Wide, s: string)
    ensures AllKept(wide, Mask(wide, s))
    decreases |s|
  {
    if s != [] {
      hide NextToken, AllKept;
      var t := NextToken(wide, s);
      var r := Mask(wide, s[t.length..]);
      MaskIsAllKept(wide, s[t.length..]);
      match t.mode
      case Keep =>
        KeptTokenIsKept(wide, s);
        KeptThenKept(wide, s[..t.length], r);
      case Ident =>
        HiddenIdentifierIsKept(wide, s);
        KeptThenKept(wide, Underscores(t.length), r);
      case Blank =>
        BlanksThenKept(wide, Blanked(s[..t.length]), r);
    } else {
      NothingKept(wide);
    }
  }

  lemma NothingKept(wide: Wide)
    ensures AllKept(wide, [])
  {
  }

  /** Masking masked text changes nothing. */
  lemma MaskIsIdempotent(wide: Wide, s: string)
    ensures Mask(wide, Mask(wide, s)) == Mask(wide, s)
  {
    MaskIsAllKept(wide, s);
    AllKeptIsFixed(wide, Mask(wide, s));
  }

  // ----- What is hidden, literal by literal -----

  /** Masking hides exactly the token at the front. */
  lemma MaskOfToken(wide: Wide, piece: string, rest: string, mode: Mode)
    requires piece != [] && NextToken(wide, piece + rest) == Token(|piece|, mode)
    ensures Mask(wide, piece + rest) == Rendered(piece, mode) + Mask(wide, rest)
  {
    hide NextToken;
    assert (piece + rest)[..|piece|] == piece && (piece + rest)[|piece|..] == rest;
  }

  /** One unit of a string literal's content. */
  datatype Unit = Plain(c: char) | Escaped(c: char)

  predicate PlainUnits(units: seq<Unit>) {
    forall i | 0 <= i < |units| && units[i].Plain? :: units[i].c != '"' && units[i].c != '\\'
  }

  function Spelled(units: seq<Unit>): string {
    if units == [] then []
    else (if units[0].Plain? then [units[0].c] else ['\\', units[0].c]) + Spelled(units[1..])
  }

  lemma {:induction false} QuotedSpan(units: seq<Unit>, rest: string)
    requires PlainUnits(units)
    ensures QuotedLen(Spelled(units) + ['"'] + rest) == |Spelled(units)| + 1
  {
    var s := Spelled(units) + ['"'] + rest;
    if units != [] {
      var tail := Spelled(units[1..]) + ['"'] + rest;
      QuotedSpan(units[1..], rest);
      if units[0].Plain? {
        assert s[1..] == tail;
      } else {
        assert s[2..] == tail;
      }
    }
  }

  /** A string literal, escapes included, is blanked to its closing quote and no further. */
  lemma StringIsHidden(wide: Wide, units: seq<Unit>, rest: string)
    requires PlainUnits(units)
    ensures var literal := ['"'] + Spelled(units) + ['"'];
      Mask(wide, literal + rest) == Blanked(literal) + Mask(wide, rest)
  {
    hide Mask, QuotedLen, Spelled;
    var literal := ['"'] + Spelled(units) + ['"'];
    QuotedSpan(units, rest);
    assert (literal + rest)[1..] == Spelled(units) + ['"'] + rest;
    assert NextToken(wide, literal + rest) == Token(|literal|, Blank);
    MaskOfToken(wide, literal, rest, Blank);
  }

  /** The content of the string literal that `s` continues, and what follows it; `None` when it never
      closes. */
  function ParseString(s: string): (r: Option<(seq<Unit>, string)>)
    decreases |s|
  {
    if s == [] then None
    else if s[0] == '"' then Some(([], s[1..]))
    else if s[0] == '\\' then
      if |s| < 2 then None
      else
        var more := ParseString(s[2..]);
        if more.None? then None else Some(([Escaped(s[1])] + more.value.0, more.value.1))
    else
      var more := ParseString(s[1..]);
      if more.None? then None else Some(([Plain(s[0])] + more.value.0, more.value.1))
  }

  lemma UnitIsSpelled(u: Unit, units: seq<Unit>, rest: string)
    requires PlainUnits(units) && (u.Plain? ==> u.c != '"' && u.c != '\\')
    ensures PlainUnits([u] + units)
    ensures Spelled([u] + units) + ['"'] + rest
         == (if u.Plain? then [u.c] else ['\\', u.c]) + (Spelled(units) + ['"'] + rest)
  {
    assert ([u] + units)[1..] == units;
  }

  lemma {:induction false} ParsedStringIsSpelled(s: string)
    ensures match ParseString(s)
      case None => QuotedLen(s) == |s|
      case Some((units, rest)) => s == Spelled(units) + ['"'] + rest && PlainUnits(units)
    decreases |s|
  {
    if s == [] {
    } else if s[0] == '"' {
      assert s == [] + ['"'] + s[1..];
    } else if s[0] != '\\' || |s| >= 2 {
      hide Spelled, PlainUnits;
      var n := if s[0] == '\\' then 2 else 1;
      ParsedStringIsSpelled(s[n..]);
      assert s == s[..n] + s[n..];
      if ParseString(s[n..]).Some? {
        var (units, rest) := ParseString(s[n..]).value;
        UnitIsSpelled(if n == 2 then Escaped(s[1]) else Plain(s[0]), units, rest);
      }
    }
  }

  /** Whatever follows an opening quote: the literal is blanked to its closing quote, or never closes
      and is blanked to the end of the text. */
  lemma EveryStringIsHidden(wide: Wide, s: string)
    ensures match ParseString(s)
      case None => Mask(wide, ['"'] + s) == Blanked(['"'] + s)
      case Some((units, rest)) =>
        var literal := ['"'] + Spelled(units) + ['"'];
        ['"'] + s == literal + rest && Mask(wide, ['"'] + s) == Blanked(literal) + Mask(wide, rest)
  {
    hide QuotedLen, Spelled, ParseString, PlainUnits, BlockLen, LineLen, WordToken;
    ParsedStringIsSpelled(s);
    match ParseString(s)
    case None =>
      assert (['"'] + s)[1..] == s && ['"'] + s + [] == ['"'] + s;
      assert NextToken(wide, ['"'] + s) == Token(|s| + 1, Blank);
      MaskOfToken(wide, ['"'] + s, [], Blank);
    case Some((units, rest)) =>
      assert ['"'] + s == ['"'] + Spelled(units) + ['"'] + rest;
      StringIsHidden(wide, units, rest);
  }

  /** A byte or C string is blanked with its prefix. */
  lemma PrefixedStringIsHidden(wide: Wide, prefix: char, units: seq<Unit>, rest: string)
    requires (prefix == 'b' || prefix == 'c') && PlainUnits(units)
    ensures var literal := [prefix, '"'] + Spelled(units) + ['"'];
      Mask(wide, literal + rest) == Blanked(literal) + Mask(wide, rest)
  {
    hide Mask, QuotedLen, Spelled, PlainUnits, RawLen, CharLen, BlockLen, LineLen;
    var literal := [prefix, '"'] + Spelled(units) + ['"'];
    var s := literal + rest;
    QuotedSpan(units, rest);
    WordLenIs(wide, s, 1);
    assert s[..1] == [prefix] && s[1..][0] == '"' && s[1..][1..] == Spelled(units) + ['"'] + rest;
    assert NextToken(wide, s) == Token(|literal|, Blank);
    MaskOfToken(wide, literal, rest, Blank);
  }

  /** A byte prefix shares the fate of the character literal behind it: both are blanked, or both
      stay code. */
  lemma ByteCharIsHidden(wide: Wide, s: string)
    requires s != [] && s[0] == '\''
    ensures match CharLen(s)
      case None => Mask(wide, ['b'] + s) == ['b'] + Mask(wide, s)
      case Some(n) => Mask(wide, ['b'] + s) == Blanked(['b'] + s[..n]) + Mask(wide, s[n..])
  {
    hide Mask, QuotedLen, RawLen, CharLen, BlockLen, LineLen;
    var t := ['b'] + s;
    WordLenIs(wide, t, 1);
    assert t[..1] == ['b'] && t[1..] == s;
    match CharLen(s)
    case None =>
      assert NextToken(wide, t) == Token(1, Keep);
      MaskOfToken(wide, ['b'], s, Keep);
    case Some(n) =>
      assert NextToken(wide, t) == Token(1 + n, Blank);
      assert t == (['b'] + s[..n]) + s[n..];
      MaskOfToken(wide, ['b'] + s[..n], s[n..], Blank);
  }

  lemma WordCharacter(wide: Wide, c: char)
    ensures IsWord(wide, c) ==> c != '"' && c != '#' && c != '/' && c != '\''
  {
  }

  lemma RawIdentifierToken(wide: Wide, s: string, behind: string, name: string, rest: string)
    requires s == "r" + behind && behind == "#" + (name + rest)
    requires name != [] && (forall i | 0 <= i < |name| :: IsWord(wide, name[i]))
    requires rest == [] || !IsWord(wide, rest[0])
    ensures NextToken(wide, s) == Token(|name| + 2, Ident)
  {
    WordCharacter(wide, name[0]);
    WordCharacter(wide, '#');
    assert IsWord(wide, 'r') && !IsWord(wide, '#');
    hide IsWord, QuotedLen, RawLen, CharLen, BlockLen, LineLen, WordLen, HashLen;
    WordLenIs(wide, s, 1);
    assert s[..1] == "r" && s[1..] == behind;
    assert Hashes(1) == "#";
    HashSpan(1, name + rest);
    assert behind[1..] == name + rest && behind[1] == name[0];
    WordLenIs(wide, name + rest, |name|);
  }

  /** A raw identifier becomes as many underscores. */
  lemma RawIdentifierIsHidden(wide: Wide, name: string, rest: string)
    requires name != [] && (forall i | 0 <= i < |name| :: IsWord(wide, name[i]))
    requires rest == [] || !IsWord(wide, rest[0])
    ensures Mask(wide, "r#" + name + rest) == Underscores(|name| + 2) + Mask(wide, rest)
  {
    hide Mask, NextToken;
    var s := "r#" + name + rest;
    assert s == "r" + ("#" + (name + rest));
    RawIdentifierToken(wide, s, "#" + (name + rest), name, rest);
    MaskOfToken(wide, "r#" + name, rest, Ident);
  }

  /** The inside of a block comment: characters and nested comments. */
  datatype Comment = End | Char(c: char, more: Comment) | Nested(inner: Comment, more: Comment)

  function Inside(x: Comment): string {
    match x
    case End => []
    case Char(c, more) => [c] + Inside(more)
    case Nested(inner, more) => "/*" + Inside(inner) + "*/" + Inside(more)
  }

  /** The first character of a comment's inside when `next` follows it. */
  function First(x: Comment, next: char): char {
    match x
    case End => next
    case Char(c, _) => c
    case Nested(_, _) => '/'
  }

  /** Written before `next`, no character of the comment pairs up with the one after it to open or
      close a comment. A lone slash or star is an ordinary character. */
  predicate WellSpelled(x: Comment, next: char) {
    match x
    case End => true
    case Char(c, more) =>
      && !(c == '/' && First(more, next) == '*') && !(c == '*' && First(more, next) == '/')
      && WellSpelled(more, next)
    case Nested(inner, more) => WellSpelled(inner, '*') && WellSpelled(more, next)
  }

  lemma FirstIs(x: Comment, rest: string)
    requires rest != []
    ensures Inside(x) + rest != [] && (Inside(x) + rest)[0] == First(x, rest[0])
  {
    match x
    case End => assert Inside(x) + rest == rest;
    case Char(c, more) =>
    case Nested(inner, more) =>
  }

  lemma BlockSteps(c: char, y: string, depth: nat)
    requires depth >= 1
    ensures BlockLen("/*" + y, depth) == 2 + BlockLen(y, depth + 1)
    ensures BlockLen("*/" + y, depth + 1) == 2 + BlockLen(y, depth)
    ensures BlockLen("*/" + y, 1) == 2
    ensures y != [] && !(c == '/' && y[0] == '*') && !(c == '*' && y[0] == '/') ==>
      BlockLen([c] + y, depth) == 1 + BlockLen(y, depth)
  {
    assert ("/*" + y)[2..] == y && ("*/" + y)[2..] == y && ([c] + y)[1..] == y;
  }

  lemma {:induction false} CommentSpan(x: Comment, rest: string, depth: nat)
    requires rest != [] && WellSpelled(x, rest[0]) && depth >= 1
    ensures BlockLen(Inside(x) + rest, depth) == |Inside(x)| + BlockLen(rest, depth)
    decreases x
  {
    hide BlockLen;
    match x
    case End => assert Inside(x) + rest == rest;
    case Char(c, more) =>
      assert Inside(x) + rest == [c] + (Inside(more) + rest);
      FirstIs(more, rest);
      BlockSteps(c, Inside(more) + rest, depth);
      CommentSpan(more, rest, depth);
    case Nested(inner, more) =>
      var tail := Inside(more) + rest;
      assert Inside(x) + rest == "/*" + (Inside(inner) + ("*/" + tail));
      BlockSteps(' ', Inside(inner) + ("*/" + tail), depth);
      CommentSpan(inner, "*/" + tail, depth + 1);
      BlockSteps(' ', tail, depth);
      CommentSpan(more, rest, depth);
  }

  /** A block comment, nested comments included, is blanked to its own end and no further. */
  lemma CommentIsHidden(wide: Wide, x: Comment, rest: string)
    requires WellSpelled(x, '*')
    ensures var comment := "/*" + Inside(x) + "*/";
      Mask(wide, comment + rest) == Blanked(comment) + Mask(wide, rest)
  {
    hide Mask, Inside, BlockLen, WordToken, IsWord, QuotedLen, LineLen;
    var comment := "/*" + Inside(x) + "*/";
    CommentSpan(x, "*/" + rest, 1);
    BlockSteps(' ', rest, 1);
    assert (comment + rest)[2..] == Inside(x) + ("*/" + rest);
    assert NextToken(wide, comment + rest) == Token(|comment|, Blank);
    MaskOfToken(wide, comment, rest, Blank);
  }

  /** The inside of the block comment that `s` continues, and what follows it; `None` when it never
      closes. */
  function ParseComment(s: string): (r: Option<(Comment, string)>)
    ensures r.Some? ==> |r.value.1| + 2 <= |s|
    decreases |s|
  {
    if s == [] then None
    else if Opens(s, '*', '/') then Some((End, s[2..]))
    else if Opens(s, '/', '*') then
      var inner := ParseComment(s[2..]);
      if inner.None? then None
      else
        var more := ParseComment(inner.value.1);
        if more.None? then None else Some((Nested(inner.value.0, more.value.0), more.value.1))
    else
      var more := ParseComment(s[1..]);
      if more.None? then None else Some((Char(s[0], more.value.0), more.value.1))
  }

  lemma NestedIsSpelled(s: string, inner: Comment, r: string, more: Comment, rest: string)
    requires Opens(s, '/', '*') && s[2..] == Inside(inner) + ("*/" + r) && WellSpelled(inner, '*')
    requires r == Inside(more) + ("*/" + rest) && WellSpelled(more, '*')
    ensures s == Inside(Nested(inner, more)) + ("*/" + rest) && WellSpelled(Nested(inner, more), '*')
  {
    assert s == "/*" + s[2..];
    FiveJoin("/*", Inside(inner), "*/", Inside(more), "*/" + rest);
  }

  lemma FiveJoin(a: string, b: string, c: string, d: string, e: string)
    ensures a + (b + (c + (d + e))) == a + b + c + d + e
  {
    assert c + (d + e) == (c + d) + e;
    assert b + ((c + d) + e) == (b + (c + d)) + e;
    assert a + (b + (c + d)) == a + b + c + d;
  }

  lemma CharIsSpelled(s: string, more: Comment, rest: string)
    requires s != [] && !Opens(s, '/', '*') && !Opens(s, '*', '/')
    requires s[1..] == Inside(more) + ("*/" + rest) && WellSpelled(more, '*')
    ensures s == Inside(Char(s[0], more)) + ("*/" + rest) && WellSpelled(Char(s[0], more), '*')
  {
    FirstIs(more, "*/" + rest);
    assert s[1] == s[1..][0] == First(more, '*');
    var (b, c) := (Inside(more), "*/" + rest);
    assert s == [s[0]] + (b + c);
    assert [s[0]] + (b + c) == [s[0]] + b + c;
  }

  lemma {:induction false} ParsedIsSpelled(s: string)
    requires ParseComment(s).Some?
    ensures var (x, rest) := ParseComment(s).value; s == Inside(x) + ("*/" + rest) && WellSpelled(x, '*')
    decreases |s|
  {
    hide Inside, WellSpelled;
    if Opens(s, '*', '/') {
      assert s == "*/" + s[2..];
      EndIsSpelled("*/" + s[2..]);
    } else if Opens(s, '/', '*') {
      ParsedIsSpelled(s[2..]);
      var (inner, r) := ParseComment(s[2..]).value;
      ParsedIsSpelled(r);
      var (more, rest) := ParseComment(r).value;
      NestedIsSpelled(s, inner, r, more, rest);
    } else {
      ParsedIsSpelled(s[1..]);
      var (more, rest) := ParseComment(s[1..]).value;
      CharIsSpelled(s, more, rest);
    }
  }

  lemma EndIsSpelled(s: string)
    ensures s == Inside(End) + s && WellSpelled(End, '*')
  {
  }

  lemma {:induction false} UnparsedNeverCloses(s: string, depth: nat)
    requires ParseComment(s).None? && depth >= 1
    ensures BlockLen(s, depth) == |s|
    decreases |s|
  {
    if s == [] {
    } else if Opens(s, '/', '*') {
      if ParseComment(s[2..]).None? {
        UnparsedNeverCloses(s[2..], depth + 1);
      } else {
        var (inner, r) := ParseComment(s[2..]).value;
        ParsedIsSpelled(s[2..]);
        CommentSpan(inner, "*/" + r, depth + 1);
        BlockSteps(' ', r, depth);
        UnparsedNeverCloses(r, depth);
      }
    } else {
      UnparsedNeverCloses(s[1..], depth);
    }
  }

  /** Whatever follows an opening: the comment is blanked to its own end, or never ends and is
      blanked to the end of the text. */
  lemma EveryCommentIsHidden(wide: Wide, s: string)
    ensures ParseComment(s).None? ==> Mask(wide, "/*" + s) == Blanked("/*" + s)
    ensures ParseComment(s).Some? ==>
      var (x, rest) := ParseComment(s).value;
      var comment := "/*" + Inside(x) + "*/";
      "/*" + s == comment + rest && Mask(wide, "/*" + s) == Blanked(comment) + Mask(wide, rest)
  {
    hide Inside, BlockLen, WordToken, IsWord, QuotedLen, LineLen, ParseComment;
    if ParseComment(s).None? {
      UnparsedNeverCloses(s, 1);
      assert ("/*" + s)[2..] == s && "/*" + s + [] == "/*" + s;
      assert NextToken(wide, "/*" + s) == Token(|s| + 2, Blank);
      MaskOfToken(wide, "/*" + s, [], Blank);
    } else {
      hide Mask;
      ParsedIsSpelled(s);
      var (x, rest) := ParseComment(s).value;
      assert "/*" + s == "/*" + Inside(x) + "*/" + rest;
      CommentIsHidden(wide, x, rest);
    }
  }

  lemma {:induction false} LineSpan(body: string, rest: string)
    requires '\n' !in body && (rest == [] || rest[0] == '\n')
    ensures LineLen(body + rest) == |body|
  {
    if body == [] {
      assert body + rest == rest;
    } else {
      assert (body + rest)[1..] == body[1..] + rest;
      LineSpan(body[1..], rest);
    }
  }

  /** A line comment is blanked up to the line break. */
  lemma LineCommentIsHidden(wide: Wide, body: string, rest: string)
    requires '\n' !in body && (rest == [] || rest[0] == '\n')
    ensures var comment := "//" + body;
      Mask(wide, comment + rest) == Blanked(comment) + Mask(wide, rest)
  {
    hide Mask;
    var comment := "//" + body;
    LineSpan(comment, rest);
    assert NextToken(wide, comment + rest) == Token(|comment|, Blank);
    MaskOfToken(wide, comment, rest, Blank);
  }

  function Hashes(n: nat): (h: string)
    ensures |h| == n && AllHashes(h)
  {
    seq(n, i => '#')
  }

  /** A body that would end its raw string before its own end. */
  predicate HoldsClose(body: string, hashes: nat) {
    exists k | 0 <= k < |body| :: ClosesRaw(body[k..], hashes)
  }

  /** A closing that starts in the body lies in the body: it cannot reach over the closing quote. */
  lemma ClosesInside(body: string, rest: string, hashes: nat)
    requires body != []
    ensures ClosesRaw(body + (['"'] + Hashes(hashes) + rest), hashes) <==> ClosesRaw(body, hashes)
  {
    var s := body + (['"'] + Hashes(hashes) + rest);
    assert s[|body|] == '"';
    if |body| < 1 + hashes {
      assert s[1..1 + hashes][|body| - 1] == '"';
    } else {
      assert s[1..1 + hashes] == body[1..1 + hashes];
    }
  }

  lemma {:induction false} HoldsCloseStep(body: string, hashes: nat)
    requires body != []
    ensures HoldsClose(body, hashes) <==> ClosesRaw(body, hashes) || HoldsClose(body[1..], hashes)
  {
    hide ClosesRaw;
    assert body[0..] == body;
    if HoldsClose(body, hashes) {
      var k :| 0 <= k < |body| && ClosesRaw(body[k..], hashes);
      assert k > 0 ==> body[1..][k - 1..] == body[k..];
    }
    if HoldsClose(body[1..], hashes) {
      var k :| 0 <= k < |body[1..]| && ClosesRaw(body[1..][k..], hashes);
      assert body[1..][k..] == body[k + 1..];
    }
  }

  lemma {:induction false} RawSpan(body: string, rest: string, hashes: nat)
    ensures RawLen(body + (['"'] + Hashes(hashes) + rest), hashes) == |body| + 1 + hashes
       <==> !HoldsClose(body, hashes)
    ensures RawLen(body + (['"'] + Hashes(hashes) + rest), hashes) <= |body| + 1 + hashes
  {
    var tail := ['"'] + Hashes(hashes) + rest;
    if body == [] {
      assert body + tail == tail;
      assert tail[1..1 + hashes] == Hashes(hashes);
    } else {
      hide ClosesRaw, HoldsClose;
      assert (body + tail)[1..] == body[1..] + tail;
      ClosesInside(body, rest, hashes);
      HoldsCloseStep(body, hashes);
      RawSpan(body[1..], rest, hashes);
      if ClosesRaw(body, hashes) { ClosesFits(body, hashes); }
    }
  }

  lemma ClosesFits(s: string, hashes: nat)
    requires ClosesRaw(s, hashes)
    ensures |s| >= 1 + hashes
  {
  }

  lemma {:induction false} HashSpan(n: nat, rest: string)
    requires rest == [] || rest[0] != '#'
    ensures HashLen(Hashes(n) + rest) == n
  {
    if n == 0 {
      assert Hashes(0) + rest == rest;
    } else {
      assert (Hashes(n) + rest)[1..] == Hashes(n - 1) + rest;
      HashSpan(n - 1, rest);
    }
  }

  lemma RawToken(wide: Wide, prefix: string, hashes: nat, inner: string)
    requires RawPrefix(prefix)
    ensures NextToken(wide, prefix + (Hashes(hashes) + (['"'] + inner)))
         == Token(|prefix| + hashes + 1 + RawLen(inner, hashes), Blank)
  {
    hide RawLen, HashLen;
    var behind := ['"'] + inner;
    var s := prefix + (Hashes(hashes) + behind);
    var w := |prefix|;
    assert s[w..] == Hashes(hashes) + behind && s[..w] == prefix;
    WordLenIs(wide, s, w);
    HashSpan(hashes, behind);
    assert s[w..][hashes] == behind[0] && s[w..][hashes + 1..] == inner;
  }

  /** A raw string ends at the first quote followed by as many hashes as opened it: it is blanked
      as one token exactly when its body holds no such closing. Quotes with fewer hashes are body. */
  lemma RawStringIsHidden(wide: Wide, prefix: string, hashes: nat, body: string, rest: string)
    requires RawPrefix(prefix)
    ensures var literal := prefix + Hashes(hashes) + ['"'] + body + ['"'] + Hashes(hashes);
      && (NextToken(wide, literal + rest) == Token(|literal|, Blank) <==> !HoldsClose(body, hashes))
      && (!HoldsClose(body, hashes) ==> Mask(wide, literal + rest) == Blanked(literal) + Mask(wide, rest))
  {
    hide Mask, RawLen, HashLen, NextToken, RawPrefix, Hashes, HoldsClose;
    var literal := prefix + Hashes(hashes) + ['"'] + body + ['"'] + Hashes(hashes);
    var inner := body + (['"'] + Hashes(hashes) + rest);
    RawToken(wide, prefix, hashes, inner);
    RawSpan(body, rest, hashes);
    assert literal + rest == prefix + (Hashes(hashes) + (['"'] + inner));
    if !HoldsClose(body, hashes) {
      MaskOfToken(wide, literal, rest, Blank);
    }
  }

  lemma {:induction false} UnclosedRaw(s: string, hashes: nat)
    requires !HoldsClose(s, hashes)
    ensures RawLen(s, hashes) == |s|
  {
    if |s| >= 1 + hashes {
      hide ClosesRaw, HoldsClose;
      HoldsCloseStep(s, hashes);
      UnclosedRaw(s[1..], hashes);
    }
  }

  /** The first closing in `s`. */
  lemma {:induction false} FirstClose(s: string, hashes: nat) returns (body: string, rest: string)
    requires HoldsClose(s, hashes)
    ensures s == body + ['"'] + Hashes(hashes) + rest && !HoldsClose(body, hashes)
  {
    if ClosesRaw(s, hashes) {
      body, rest := [], s[1 + hashes..];
      assert s[1..1 + hashes] == Hashes(hashes);
    } else {
      HoldsCloseStep(s, hashes);
      var more;
      more, rest := FirstClose(s[1..], hashes);
      body := [s[0]] + more;
      assert s == body + ['"'] + Hashes(hashes) + rest && body[1..] == more;
      HoldsCloseStep(body, hashes);
      assert s == body + (['"'] + Hashes(hashes) + rest);
      ClosesInside(body, rest, hashes);
    }
  }

  /** Whatever follows the opening of a raw string: it is blanked to its first closing, or never
      closes and is blanked to the end of the text. */
  lemma EveryRawStringIsHidden(wide: Wide, prefix: string, hashes: nat, s: string) returns (body: string, rest: string)
    requires RawPrefix(prefix)
    ensures var opening := prefix + Hashes(hashes) + ['"'];
      if HoldsClose(s, hashes) then
        var literal := opening + body + ['"'] + Hashes(hashes);
        && opening + s == literal + rest && !HoldsClose(body, hashes)
        && Mask(wide, opening + s) == Blanked(literal) + Mask(wide, rest)
      else Mask(wide, opening + s) == Blanked(opening + s)
  {
    hide RawLen, HashLen, NextToken, RawPrefix, Hashes, HoldsClose;
    var opening := prefix + Hashes(hashes) + ['"'];
    if HoldsClose(s, hashes) {
      hide Mask;
      body, rest := FirstClose(s, hashes);
      assert opening + s == opening + body + ['"'] + Hashes(hashes) + rest;
      RawStringIsHidden(wide, prefix, hashes, body, rest);
    } else {
      body, rest := s, [];
      UnclosedRaw(s, hashes);
      RawToken(wide, prefix, hashes, s);
      assert opening + s == prefix + (Hashes(hashes) + (['"'] + s)) && opening + s + [] == opening + s;
      MaskOfToken(wide, opening + s, [], Blank);
    }
  }

  /** `'x'` is a character literal; a quote before anything else is a lifetime and stays. */
  lemma CharOrLifetime(wide: Wide, c: char, rest: string)
    ensures c != '\'' && c != '\\' ==>
      Mask(wide, ['\'', c, '\''] + rest) == Blanked(['\'', c, '\'']) + Mask(wide, rest)
    ensures c == '\'' || (c != '\\' && (rest == [] || rest[0] != '\'')) ==>
      Mask(wide, ['\'', c] + rest) == ['\''] + Mask(wide, [c] + rest)
  {
    hide Mask;
    if c != '\'' && c != '\\' {
      var literal := ['\'', c, '\''];
      assert NextToken(wide, literal + rest) == Token(3, Blank);
      MaskOfToken(wide, literal, rest, Blank);
    }
    if c == '\'' || (c != '\\' && (rest == [] || rest[0] != '\'')) {
      var s := ['\'', c] + rest;
      assert s == ['\''] + ([c] + rest);
      assert NextToken(wide, s) == Token(1, Keep);
      MaskOfToken(wide, ['\''], [c] + rest, Keep);
    }
  }

  lemma {:induction false} RunSpan(body: string, rest: string)
    requires '\'' !in body && '\n' !in body && (rest == [] || rest[0] == '\'' || rest[0] == '\n')
    ensures CharRun(body + rest) == |body|
  {
    if body == [] {
      assert body + rest == rest;
    } else {
      assert (body + rest)[1..] == body[1..] + rest;
      RunSpan(body[1..], rest);
    }
  }

  /** After a backslash the literal runs to the next quote on its line, the escaped character aside;
      without one the opening quote stays code. */
  lemma EscapedCharIsHidden(wide: Wide, c: char, body: string, rest: string)
    requires '\'' !in body && '\n' !in body
    ensures var literal := ['\'', '\\', c] + body + ['\''];
      Mask(wide, literal + rest) == Blanked(literal) + Mask(wide, rest)
    ensures rest == [] || rest[0] == '\n' ==>
      Mask(wide, ['\''] + (['\\', c] + body + rest)) == ['\''] + Mask(wide, ['\\', c] + body + rest)
  {
    hide Mask, CharRun;
    var literal := ['\'', '\\', c] + body + ['\''];
    RunSpan(body, ['\''] + rest);
    assert (literal + rest)[3..] == body + (['\''] + rest);
    assert NextToken(wide, literal + rest) == Token(|literal|, Blank);
    MaskOfToken(wide, literal, rest, Blank);
    if rest == [] || rest[0] == '\n' {
      var open := ['\''] + (['\\', c] + body + rest);
      RunSpan(body, rest);
      assert open[3..] == body + rest;
      assert NextToken(wide, open) == Token(1, Keep);
      MaskOfToken(wide, ['\''], ['\\', c] + body + rest, Keep);
    }
  }

  // ----- Lines -----

  function Newlines(s: string): nat {
    if s == [] then 0 else Newlines(s[..|s| - 1]) + (if s[|s| - 1] == '\n' then 1 else 0)
  }

  /** Where the last line of `s` starts. */
  function LineStart(s: string): (n: nat)
    ensures n <= |s|
  {
    if s == [] then 0 else if s[|s| - 1] == '\n' then |s| else LineStart(s[..|s| - 1])
  }

  lemma {:induction false} LinesConcat(a: string, b: string)
    ensures Newlines(a + b) == Newlines(a) + Newlines(b)
    ensures LineStart(a + b) == if Newlines(b) > 0 then |a| + LineStart(b) else LineStart(a)
  {
    if b == [] {
      assert a + b == a;
    } else {
      assert (a + b)[..|a + b| - 1] == a + b[..|b| - 1];
      LinesConcat(a, b[..|b| - 1]);
    }
  }

  lemma {:induction false} ShadowLines(r: string, s: string)
    requires Shadows(r, s)
    ensures Newlines(r) == Newlines(s)
  {
    if s != [] {
      ShadowLines(r[..|r| - 1], s[..|s| - 1]);
    }
  }

  /** The 1-based line of an offset. */
  function LineOf(code: string, offset: nat): nat
    requires offset <= |code|
  {
    Newlines(code[..offset]) + 1
  }

  /** One more character: a line break starts a line, anything else extends the last one. */
  function Grown(ls: seq<string>, c: char): (r: seq<string>)
    requires ls != []
    ensures |r| == |ls| + if c == '\n' then 1 else 0
  {
    var n := |ls| - 1;
    if c == '\n' then ls + [[]] else ls[..n] + [ls[n] + [c]]
  }

  /** The text cut at its line breaks. */
  function Lines(s: string): (ls: seq<string>)
    ensures |ls| == Newlines(s) + 1
  {
    if s == [] then [[]] else Grown(Lines(s[..|s| - 1]), s[|s| - 1])
  }

  function Unlines(ls: seq<string>): string
    requires ls != []
  {
    if |ls| == 1 then ls[0] else Unlines(ls[..|ls| - 1]) + ['\n'] + ls[|ls| - 1]
  }

  lemma UnlinesSnoc(ls: seq<string>, x: string)
    requires ls != []
    ensures Unlines(ls + [x]) == Unlines(ls) + ['\n'] + x
  {
    assert (ls + [x])[..|ls|] == ls;
  }

  lemma UnlinesExtend(ls: seq<string>, last: string, c: char)
    ensures Unlines(ls + [last + [c]]) == Unlines(ls + [last]) + [c]
  {
    if ls == [] {
      assert ls + [last] == [last] && ls + [last + [c]] == [last + [c]];
    } else {
      UnlinesSnoc(ls, last);
      UnlinesSnoc(ls, last + [c]);
    }
  }

  /** Cutting loses nothing: joined by line breaks the lines are the text. */
  lemma {:induction false} LinesJoin(s: string)
    ensures Unlines(Lines(s)) == s
  {
    hide Unlines;
    if s == [] {
      assert Unlines([[]]) == [] by { UnlinesOne([]); }
    } else {
      var before, c := Lines(s[..|s| - 1]), s[|s| - 1];
      LinesJoin(s[..|s| - 1]);
      var n := |before| - 1;
      assert s == s[..|s| - 1] + [c];
      if c == '\n' {
        UnlinesSnoc(before, []);
        assert Unlines(before) + ['\n'] + [] == Unlines(before) + ['\n'];
      } else {
        assert before == before[..n] + [before[n]];
        UnlinesExtend(before[..n], before[n], c);
      }
    }
  }

  lemma UnlinesOne(x: string)
    ensures Unlines([x]) == x
  {
  }

  /** No line holds a line break. */
  lemma {:induction false} LinesAreUnbroken(s: string)
    ensures forall k | 0 <= k < |Lines(s)| :: '\n' !in Lines(s)[k]
  {
    if s != [] {
      LinesAreUnbroken(s[..|s| - 1]);
    }
  }

  predicate LineByLine(ls: seq<string>, ms: seq<string>) {
    |ls| == |ms| && forall k | 0 <= k < |ls| :: Shadows(ls[k], ms[k])
  }

  lemma GrownShadow(ls: seq<string>, ms: seq<string>, c: char, d: char)
    requires ls != [] && ms != [] && LineByLine(ls, ms) && Shadows([c], [d]) && (c == '\n' <==> d == '\n')
    ensures LineByLine(Grown(ls, c), Grown(ms, d))
  {
    NothingShadows();
    hide Shadows;
    var n := |ls| - 1;
    if c != '\n' {
      ShadowsConcat(ls[n], ms[n], [c], [d]);
    }
  }

  /** Every line of a shadow shadows the same line of its source. */
  lemma {:induction false} LinesShadow(r: string, s: string)
    requires Shadows(r, s)
    ensures LineByLine(Lines(r), Lines(s))
  {
    ShadowLength(r, s);
    NothingShadows();
    hide Shadows, Grown;
    if s != [] {
      var n := |s| - 1;
      ShadowsPrefix(r, s);
      LinesShadow(r[..n], s[..n]);
      GrownShadow(Lines(r[..n]), Lines(s[..n]), r[n], s[n]);
    }
  }

  lemma ShadowsPrefix(r: string, s: string)
    requires Shadows(r, s) && s != []
    ensures |r| == |s| && Shadows(r[..|s| - 1], s[..|s| - 1]) && Shadows([r[|s| - 1]], [s[|s| - 1]])
    ensures r[|s| - 1] == '\n' <==> s[|s| - 1] == '\n'
  {
  }

  /** An offset in the masked code is on the line it is on in the source. */
  lemma LinesAgree(wide: Wide, text: string, offset: nat)
    requires offset <= |text|
    ensures LineOf(Mask(wide, text), offset) == LineOf(text, offset)
  {
    hide Mask;
    MaskShadows(wide, text);
    ShadowLines(Mask(wide, text)[..offset], text[..offset]);
  }

  // ----- The scan as it runs -----

  lemma BlockStep(text: string, index: nat, depth: nat)
    requires index <= |text|
    ensures var rest := text[index..];
      BlockLen(rest, depth)
      == if rest == [] then 0
         else if Opens(rest, '/', '*') then 2 + BlockLen(text[index + 2..], depth + 1)
         else if Opens(rest, '*', '/') then if depth <= 1 then 2 else 2 + BlockLen(text[index + 2..], depth - 1)
         else 1 + BlockLen(text[index + 1..], depth)
  {
    var rest := text[index..];
    assert rest != [] ==> rest[1..] == text[index + 1..];
    assert |rest| >= 2 ==> rest[2..] == text[index + 2..];
  }

  method BlockCommentEnd(text: string, start: nat) returns (end: nat)
    requires start < |text| && Opens(text[start..], '/', '*')
    ensures end == start + 2 + BlockLen(text[start + 2..], 1)
  {
    hide BlockLen;
    ghost var target := start + 2 + BlockLen(text[start + 2..], 1);
    var depth, index := 0, start;
    while index < |text|
      invariant depth >= 0 && start <= index <= |text|
      invariant depth == 0 ==> index == start
      invariant depth > 0 ==> index + BlockLen(text[index..], depth) == target
    {
      var rest := text[index..];
      BlockStep(text, index, depth);
      if Opens(rest, '/', '*') {
        depth, index := depth + 1, index + 2;
      } else if Opens(rest, '*', '/') {
        depth, index := depth - 1, index + 2;
        if depth == 0 { return index; }
      } else {
        index := index + 1;
      }
    }
    assert text[|text|..] == [] && BlockLen([], depth) == 0 by { BlockStep(text, |text|, depth); }
    return |text|;
  }

  method QuotedEnd(text: string, start: nat) returns (end: nat)
    requires start < |text|
    ensures end == start + 1 + QuotedLen(text[start + 1..])
  {
    ghost var target := start + 1 + QuotedLen(text[start + 1..]);
    var index := start + 1;
    while index < |text|
      invariant start < index
      invariant index <= |text| ==> index + QuotedLen(text[index..]) == target
      invariant index > |text| ==> target == |text|
    {
      var rest := text[index..];
      assert rest[1..] == text[index + 1..];
      assert |rest| >= 2 ==> rest[2..] == text[index + 2..];
      if text[index] == '\\' {
        index := index + 2;
      } else if text[index] == '"' {
        return index + 1;
      } else {
        index := index + 1;
      }
    }
    return |text|;
  }

  method CharEnd(text: string, start: nat) returns (end: Option<nat>)
    requires start < |text| && text[start] == '\''
    ensures match CharLen(text[start..])
      case None => end == None
      case Some(n) => end == Some(start + n)
  {
    ghost var s := text[start..];
    var following := start + 1;
    if following >= |text| { return None; }
    assert s[1] == text[following];
    if text[following] == '\\' {
      var index := following + 2;
      assert index <= |text| ==> s[3..] == text[index..];
      ghost var target := if index <= |text| then index + CharRun(text[index..]) else 0;
      while index < |text| && text[index] != '\'' && text[index] != '\n'
        invariant index <= |text| ==> index + CharRun(text[index..]) == target
        invariant index > |text| ==> following + 2 > |text|
      {
        assert text[index..][1..] == text[index + 1..];
        index := index + 1;
      }
      if index < |text| && text[index] == '\'' {
        assert s[index - start] == '\'';
        return Some(index + 1);
      }
      assert index == target < |text| ==> s[target - start] == text[target];
      return None;
    }
    assert following + 1 < |text| ==> s[2] == text[following + 1];
    if text[following] != '\'' && following + 1 < |text| && text[following + 1] == '\'' {
      return Some(following + 2);
    }
    return None;
  }

  method WordEnd(wide: Wide, text: string, start: nat) returns (end: nat)
    requires start <= |text|
    ensures end == start + WordLen(wide, text[start..])
  {
    end := start;
    while end < |text| && IsWord(wide, text[end])
      invariant start <= end <= |text|
      invariant end + WordLen(wide, text[end..]) == start + WordLen(wide, text[start..])
    {
      assert text[end..][1..] == text[end + 1..];
      end := end + 1;
    }
  }

  method HashEnd(text: string, start: nat) returns (end: nat)
    requires start <= |text|
    ensures end == start + HashLen(text[start..])
  {
    end := start;
    while end < |text| && text[end] == '#'
      invariant start <= end <= |text|
      invariant end + HashLen(text[end..]) == start + HashLen(text[start..])
    {
      assert text[end..][1..] == text[end + 1..];
      end := end + 1;
    }
  }

  lemma SliceOfSlice(text: string, a: nat, b: nat)
    requires a <= b <= |text|
    ensures text[a..][b - a..] == text[b..] && text[a..][..b - a] == text[a..b]
    ensures b < |text| ==> text[a..][b - a] == text[b]
  {
  }

  /** The literals a word can open, given the word and where its hashes end. */
  method ScanPrefixed(wide: Wide, text: string, word: string, end: nat, quote: nat)
    returns (literal: Option<(nat, Mode)>)
    requires end <= |text| && quote == end + HashLen(text[end..])
    ensures var rest := text[end..];
      var h := HashLen(rest);
      match literal
      case Some((close, Blank)) =>
        RawPrefix(word) && h < |rest| && rest[h] == '"' && close == end + h + 1 + RawLen(rest[h + 1..], h)
      case Some((close, Ident)) =>
        && !(RawPrefix(word) && h < |rest| && rest[h] == '"')
        && word == "r" && h == 1 && h < |rest| && IsWord(wide, rest[h]) && close == end + h + WordLen(wide, rest[h..])
      case Some((_, Keep)) => false
      case None =>
        && !(RawPrefix(word) && h < |rest| && rest[h] == '"')
        && !(word == "r" && h == 1 && h < |rest| && IsWord(wide, rest[h]))
  {
    hide WordLen, RawLen, IsWord;
    SliceOfSlice(text, end, quote);
    if RawPrefix(word) && end < |text| && (text[end] == '"' || text[end] == '#') {
      if quote < |text| && text[quote] == '"' {
        SliceOfSlice(text, end, quote + 1);
        return Some((quote + 1 + RawLen(text[quote + 1..], quote - end), Blank));
      }
      if word == "r" && quote == end + 1 && quote < |text| && IsWord(wide, text[quote]) {
        var identifierEnd := WordEnd(wide, text, quote);
        return Some((identifierEnd, Ident));
      }
    }
    return None;
  }

  /** A byte or C string, or a byte character, right behind its prefix. */
  method ScanQuoted(text: string, word: string, end: nat) returns (close: Option<nat>)
    requires end <= |text|
    ensures var rest := text[end..];
      close ==
        if (word == "b" || word == "c") && rest != [] && rest[0] == '"' then Some(end + 1 + QuotedLen(rest[1..]))
        else if word == "b" && rest != [] && rest[0] == '\'' && CharLen(rest).Some? then Some(end + CharLen(rest).value)
        else None
  {
    hide QuotedLen, CharLen;
    if (word == "b" || word == "c") && end < |text| && text[end] == '"' {
      SliceOfSlice(text, end, end + 1);
      var quoted := QuotedEnd(text, end);
      return Some(quoted);
    }
    if word == "b" && end < |text| && text[end] == '\'' {
      close := CharEnd(text, end);
      return close;
    }
    return None;
  }

  method ScanWord(wide: Wide, text: string, index: nat) returns (end: nat, mode: Mode)
    requires index < |text| && IsWord(wide, text[index])
    ensures index <= end && Token(end - index, mode) == WordToken(wide, text[index..])
  {
    hide WordLen, HashLen, RawLen, QuotedLen, CharLen, IsWord, RawPrefix;
    end := WordEnd(wide, text, index);
    SliceOfSlice(text, index, end);
    var word := text[index..end];
    var quote := HashEnd(text, end);
    var literal := ScanPrefixed(wide, text, word, end, quote);
    if literal.Some? {
      return literal.value.0, literal.value.1;
    }
    var close := ScanQuoted(text, word, end);
    if close.Some? {
      return close.value, Blank;
    }
    return end, Keep;
  }

  method ScanToken(wide: Wide, text: string, index: nat) returns (end: nat, mode: Mode)
    requires index < |text|
    ensures index <= end && Token(end - index, mode) == NextToken(wide, text[index..])
  {
    hide WordToken, QuotedLen, CharLen, BlockLen, IsWord;
    ghost var s := text[index..];
    assert s[0] == text[index] && s[1..] == text[index + 1..];
    if Opens(text[index..], '/', '/') {
      return index + LineLen(text[index..]), Blank;
    } else if Opens(text[index..], '/', '*') {
      assert s[2..] == text[index + 2..];
      end := BlockCommentEnd(text, index);
      mode := Blank;
    } else if IsWord(wide, text[index]) {
      end, mode := ScanWord(wide, text, index);
    } else if text[index] == '"' {
      end := QuotedEnd(text, index);
      mode := Blank;
    } else if text[index] == '\'' {
      var close := CharEnd(text, index);
      if close.None? { return index + 1, Keep; }
      return close.value, Blank;
    } else {
      return index + 1, Keep;
    }
  }

  /** Which characters `strip` removes; the scan works for any answer. */
  type Space = char -> bool

  predicate AllSpace(space: Space, s: string) { forall i | 0 <= i < |s| :: space(s[i]) }

  function Strip(space: Space, s: string): string {
    if s == [] then []
    else if space(s[0]) then Strip(space, s[1..])
    else if space(s[|s| - 1]) then Strip(space, s[..|s| - 1])
    else s
  }

  /** A `//` comment at `i`, alone on line `line`, whose stripped text is `body`. */
  predicate StandaloneComment(space: Space, text: string, i: nat, line: nat, body: string) {
    && i < |text| && Opens(text[i..], '/', '/') && line == Newlines(text[..i])
    && AllSpace(space, text[LineStart(text[..i])..i]) && LineLen(text[i..]) >= 2
    && body == Strip(space, text[i + 2..i + LineLen(text[i..])])
  }

  class Scanner {
    const text: string
    var index: nat
    var line: nat
    var lineStart: nat
    var code: string
    var lines: seq<string>
    var rawIdentifiers: seq<nat>
    var comments: map<nat, string>

    /** The cursor is in the text and the line bookkeeping is that of the text before it. */
    predicate Valid()
      reads this
    {
      index <= |text| && line == Newlines(text[..index]) && lineStart == LineStart(text[..index])
    }

    constructor (text: string)
      ensures Valid() && this.text == text && index == 0 && code == [] && rawIdentifiers == [] && comments == map[]
    {
      this.text, index, line, lineStart := text, 0, 0, 0;
      code, lines, rawIdentifiers, comments := [], [], [], map[];
      new;
      assert text[..0] == [];
    }

    /** Renders the text up to `end` and moves the cursor and the line count past it. */
    method Emit(end: nat, mode: Mode)
      requires Valid() && index <= end <= |text|
      modifies this`index, this`line, this`lineStart, this`code, this`rawIdentifiers
      ensures Valid() && index == end
      ensures code == old(code) + Rendered(text[old(index)..end], mode)
      ensures rawIdentifiers == old(rawIdentifiers) + (if mode == Ident then [old(index)] else [])
    {
      var segment := text[index..end];
      if mode == Ident { rawIdentifiers := rawIdentifiers + [index]; }
      code := code + Rendered(segment, mode);
      LinesConcat(text[..index], segment);
      assert text[..index] + segment == text[..end];
      var newlines := Newlines(segment);
      if newlines > 0 {
        line := line + newlines;
        lineStart := index + LineStart(segment);
      }
      index := end;
    }
  }

  /** A token of the text begins at `i`. */
  predicate TokenStart(wide: Wide, s: string, i: nat)
    decreases |s|
  {
    i == 0 || (s != [] && var n := NextToken(wide, s).length; n <= i && TokenStart(wide, s[n..], i - n))
  }

  /** The token after the one at `i` begins where that one ends, and none begins inside it. */
  lemma {:induction false} NextStart(wide: Wide, s: string, i: nat)
    requires i < |s| && TokenStart(wide, s, i)
    ensures var n := NextToken(wide, s[i..]).length;
      TokenStart(wide, s, i + n) && forall j: nat | i < j < i + n :: !TokenStart(wide, s, j)
    decreases |s|
  {
    hide NextToken;
    var first := NextToken(wide, s).length;
    if i == 0 {
      assert s[0..] == s;
    } else {
      NextStart(wide, s[first..], i - first);
      assert s[first..][i - first..] == s[i..];
      var n := NextToken(wide, s[i..]).length;
      forall j: nat | i < j < i + n ensures !TokenStart(wide, s, j) {
        assert !TokenStart(wide, s[first..], j - first);
      }
    }
  }

  predicate RawIdentifierAt(wide: Wide, text: string, i: nat) {
    i < |text| && TokenStart(wide, text, i) && NextToken(wide, text[i..]).mode == Ident
  }

  /** A line comment with nothing but space before it on its line. */
  predicate CommentAt(wide: Wide, space: Space, text: string, i: nat) {
    && i < |text| && TokenStart(wide, text, i) && Opens(text[i..], '/', '/')
    && AllSpace(space, text[LineStart(text[..i])..i])
  }

  /** Before `end`, every line that holds a standalone comment is noted, and every note is the text
      of such a comment on its line. */
  ghost predicate CommentsNoted(wide: Wide, space: Space, text: string, comments: map<nat, string>, end: nat) {
    && (forall i | 0 <= i < end && CommentAt(wide, space, text, i) :: Newlines(text[..i]) in comments)
    && forall l | l in comments :: exists i ::
         0 <= i < end && CommentAt(wide, space, text, i) && StandaloneComment(space, text, i, l, comments[l])
  }

  /** The offsets are those of the raw identifiers before `end`, in order. */
  ghost predicate RawIdentifiersNoted(wide: Wide, text: string, offsets: seq<nat>, end: nat) {
    && (forall i: nat :: i in offsets <==> i < end && RawIdentifierAt(wide, text, i))
    && forall a, b | 0 <= a < b < |offsets| :: offsets[a] < offsets[b]
  }

  /** Tokenizes the whole text: the code is the masked text, beside it the comments that may justify
      an unsafe block and the raw identifiers. */
  method Scan(wide: Wide, space: Space, text: string) returns (scanner: Scanner)
    ensures scanner.code == Mask(wide, text) && Shadows(scanner.code, text) && scanner.lines == Lines(scanner.code)
    ensures CommentsNoted(wide, space, text, scanner.comments, |text|)
    ensures RawIdentifiersNoted(wide, text, scanner.rawIdentifiers, |text|)
  {
    hide NextToken, Shadows, Rendered, Newlines, LineStart, LineLen, Strip, Mask, AllSpace;
    hide CommentsNoted, RawIdentifiersNoted, TokenStart, StandaloneComment, CommentAt;
    scanner := new Scanner(text);
    assert text[0..] == text;
    NothingNoted(wide, space, text);
    while scanner.index < |text|
      invariant scanner.Valid() && scanner.text == text && TokenStart(wide, text, scanner.index)
      invariant scanner.code + Mask(wide, text[scanner.index..]) == Mask(wide, text)
      invariant CommentsNoted(wide, space, text, scanner.comments, scanner.index)
      invariant RawIdentifiersNoted(wide, text, scanner.rawIdentifiers, scanner.index)
      decreases |text| - scanner.index
    {
      var i := scanner.index;
      var end, mode := ScanToken(wide, text, i);
      MaskStep(wide, text, i);
      NextStart(wide, text, i);
      NoteComment(wide, space, text, scanner.comments, i);
      NoteRawIdentifier(wide, text, scanner.rawIdentifiers, i);
      if Opens(text[i..], '/', '/') && AllSpace(space, text[scanner.lineStart..i]) {
        LineCommentToken(wide, text[i..]);
        scanner.comments := scanner.comments[scanner.line := Strip(space, text[i + 2..end])];
      }
      assert scanner.rawIdentifiers + [] == scanner.rawIdentifiers;
      scanner.Emit(end, mode);
    }
    assert text[|text|..] == [] && Mask(wide, []) == [];
    MaskShadows(wide, text);
    scanner.lines := Lines(scanner.code);
  }

  lemma NothingNoted(wide: Wide, space: Space, text: string)
    ensures CommentsNoted(wide, space, text, map[], 0) && RawIdentifiersNoted(wide, text, [], 0)
    ensures TokenStart(wide, text, 0)
  {
  }

  /** One more token: a standalone comment is added under its line, anything else adds nothing. */
  lemma NoteComment(wide: Wide, space: Space, text: string, comments: map<nat, string>, i: nat)
    requires i < |text| && TokenStart(wide, text, i) && CommentsNoted(wide, space, text, comments, i)
    ensures var end := i + NextToken(wide, text[i..]).length;
      if Opens(text[i..], '/', '/') && AllSpace(space, text[LineStart(text[..i])..i])
      then LineLen(text[i..]) >= 2 && CommentsNoted(wide, space, text,
             comments[Newlines(text[..i]) := Strip(space, text[i + 2..i + LineLen(text[i..])])], end)
      else CommentsNoted(wide, space, text, comments, end)
  {
    hide NextToken, Newlines, LineStart, LineLen, Strip, AllSpace, TokenStart;
    NextStart(wide, text, i);
    if Opens(text[i..], '/', '/') {
      LineCommentToken(wide, text[i..]);
      if AllSpace(space, text[LineStart(text[..i])..i]) {
        var line, body := Newlines(text[..i]), Strip(space, text[i + 2..i + LineLen(text[i..])]);
        assert CommentAt(wide, space, text, i) && StandaloneComment(space, text, i, line, body);
        var more := comments[line := body];
        forall l | l in more
          ensures exists k ::
            0 <= k < i + 1 && CommentAt(wide, space, text, k) && StandaloneComment(space, text, k, l, more[l])
        {
          if l == line {
            assert StandaloneComment(space, text, i, l, more[l]);
          } else {
            assert l in comments;
          }
        }
      }
    }
  }

  lemma NoteRawIdentifier(wide: Wide, text: string, offsets: seq<nat>, i: nat)
    requires i < |text| && TokenStart(wide, text, i) && RawIdentifiersNoted(wide, text, offsets, i)
    ensures var t := NextToken(wide, text[i..]);
      RawIdentifiersNoted(wide, text, if t.mode == Ident then offsets + [i] else offsets, i + t.length)
  {
    hide NextToken, TokenStart;
    NextStart(wide, text, i);
    var t := NextToken(wide, text[i..]);
    var more := if t.mode == Ident then offsets + [i] else offsets;
    forall k: nat ensures k in more <==> k < i + t.length && RawIdentifierAt(wide, text, k) {
      assert k in more <==> k in offsets || (t.mode == Ident && k == i);
      assert i < k < i + t.length ==> !TokenStart(wide, text, k);
    }
    forall a, b | 0 <= a < b < |more| ensures more[a] < more[b] {
      assert a < |offsets| && offsets[a] in offsets;
    }
  }

  /** A line has one standalone comment, so its note is determined by the text. */
  lemma OneCommentPerLine(space: Space, text: string, i: nat, j: nat, line: nat, a: string, b: string)
    requires !space('/')
    requires StandaloneComment(space, text, i, line, a) && StandaloneComment(space, text, j, line, b)
    ensures i == j && a == b
  {
    hide Strip;
    if i < j {
      SameLineOverlaps(space, text, i, j);
    } else if j < i {
      SameLineOverlaps(space, text, j, i);
    }
  }

  lemma SameLineOverlaps(space: Space, text: string, i: nat, j: nat)
    requires i < j <= |text| && Newlines(text[..i]) == Newlines(text[..j]) && text[i] == '/'
    requires AllSpace(space, text[LineStart(text[..j])..j])
    ensures space('/')
  {
    hide Newlines;
    LinesConcat(text[..i], text[i..j]);
    assert text[..i] + text[i..j] == text[..j];
    var start := LineStart(text[..j]);
    assert text[start..j][i - start] == '/';
  }

  lemma LineCommentToken(wide: Wide, s: string)
    requires Opens(s, '/', '/')
    ensures NextToken(wide, s) == Token(LineLen(s), Blank) && LineLen(s) >= 2
  {
    assert LineLen(s[1..]) >= 1;
  }

  lemma MaskStep(wide: Wide, text: string, i: nat)
    requires i < |text|
    ensures var t := NextToken(wide, text[i..]);
      Mask(wide, text[i..]) == Rendered(text[i..i + t.length], t.mode) + Mask(wide, text[i + t.length..])
  {
    hide NextToken, Rendered;
    var t := NextToken(wide, text[i..]);
    assert text[i..][..t.length] == text[i..i + t.length] && text[i..][t.length..] == text[i + t.length..];
  }
}
