/** The lexical grammar behind the masker, written over characters alone: which pieces of a Rust text
    are comments, literals, raw identifiers and code. The tokens the masker takes are exactly these
    pieces, so the grammar determines the masked text. */
module MaskGrammar {
  import opened Commons
  import opened Masker
  import opened Sums

  // ----- Pieces, by their characters -----

  predicate AllWord(wide: Wide, s: string) { s != [] && forall i | 0 <= i < |s| :: IsWord(wide, s[i]) }

  /** What follows a whole word. */
  predicate Breaks(wide: Wide, rest: string) { rest == [] || !IsWord(wide, rest[0]) }

  predicate IsLineComment(p: string, rest: string) {
    "//" <= p && '\n' !in p && (rest == [] || rest[0] == '\n')
  }

  function CommentText(x: Comment): string { "/*" + Inside(x) + "*/" }

  predicate CommentStarts(p: string, x: Comment) { WellSpelled(x, '*') && CommentText(x) <= p }

  /** A comment with its nested comments, or one that the text leaves open. */
  ghost predicate IsBlockComment(p: string, rest: string) {
    || (exists x :: CommentStarts(p, x) && p == CommentText(x))
    || (rest == [] && "/*" <= p && forall x :: !CommentStarts(p, x))
  }

  function StringText(units: seq<Unit>): string { ['"'] + Spelled(units) + ['"'] }

  predicate StringStarts(p: string, units: seq<Unit>) { PlainUnits(units) && StringText(units) <= p }

  /** A string with its escapes, or one that the text leaves open. */
  ghost predicate IsString(p: string, rest: string) {
    || (exists units :: StringStarts(p, units) && p == StringText(units))
    || (rest == [] && ['"'] <= p && forall units :: !StringStarts(p, units))
  }

  predicate NoClose(body: string, hashes: nat) {
    forall k | 0 <= k < |body| :: !(['"'] + Hashes(hashes) <= body[k..])
  }

  predicate RawSpells(p: string, rest: string, hashes: nat, body: string) {
    && NoClose(body, hashes)
    && (|| p == Hashes(hashes) + ['"'] + body + ['"'] + Hashes(hashes)
        || (p == Hashes(hashes) + ['"'] + body && rest == []))
  }

  /** A raw string behind its prefix: it ends at the first quote with as many hashes as opened it. */
  ghost predicate IsRaw(p: string, rest: string) {
    exists hashes: nat, body: string :: RawSpells(p, rest, hashes, body)
  }

  /** One character, or a backslash, a character and what follows on the line, between quotes. */
  predicate IsChar(p: string) {
    && |p| >= 3 && p[0] == '\'' && p[|p| - 1] == '\''
    && if p[1] == '\\' then |p| >= 4 && forall i | 3 <= i < |p| - 1 :: p[i] != '\'' && p[i] != '\n'
       else |p| == 3 && p[1] != '\''
  }

  predicate OpensChar(s: string) { exists n | 0 <= n <= |s| :: IsChar(s[..n]) }

  predicate OpensRaw(s: string) { exists n | 0 <= n < |s| :: s[..n] == Hashes(n) && s[n] == '"' }

  /** The word and what follows it start a literal or a raw identifier. */
  predicate OpensLiteral(wide: Wide, word: string, rest: string) {
    || ((word == "r" || word == "br" || word == "cr") && OpensRaw(rest))
    || (word == "r" && |rest| >= 2 && rest[0] == '#' && IsWord(wide, rest[1]))
    || ((word == "b" || word == "c") && rest != [] && rest[0] == '"')
    || (word == "b" && OpensChar(rest))
  }

  ghost predicate IsPrefixed(p: string, rest: string) {
    || (("b" <= p || "c" <= p) && IsString(p[1..], rest))
    || ("b" <= p && IsChar(p[1..]))
    || ("r" <= p && IsRaw(p[1..], rest))
    || (("br" <= p || "cr" <= p) && IsRaw(p[2..], rest))
  }

  /** A character that is a token of its own. */
  predicate StandsAlone(wide: Wide, c: char, rest: string) {
    && !IsWord(wide, c) && c != '"' && !(c == '\'' && OpensChar([c] + rest))
    && !(c == '/' && rest != [] && (rest[0] == '/' || rest[0] == '*'))
  }

  /** `p`, in front of `rest`, is one piece of the text, to be shown as `mode` says. */
  ghost predicate Lexeme(wide: Wide, p: string, rest: string, mode: Mode) {
    match mode
    case Blank =>
      || IsLineComment(p, rest) || IsBlockComment(p, rest)
      || IsString(p, rest) || IsChar(p) || IsPrefixed(p, rest)
    case Ident => "r#" <= p && AllWord(wide, p[2..]) && Breaks(wide, rest)
    case Keep =>
      || (AllWord(wide, p) && Breaks(wide, rest) && !OpensLiteral(wide, p, rest))
      || (|p| == 1 && StandsAlone(wide, p[0], rest))
  }

  // ----- Each piece is a token -----

  predicate Takes(wide: Wide, p: string, rest: string, mode: Mode) {
    p != [] && NextToken(wide, p + rest) == Token(|p|, mode)
  }

  lemma LineCommentTakes(wide: Wide, p: string, rest: string)
    requires IsLineComment(p, rest)
    ensures Takes(wide, p, rest, Blank)
  {
    hide LineLen;
    LineSpan(p, rest);
    assert (p + rest)[0] == "//"[0] && (p + rest)[1] == "//"[1];
  }

  lemma {:induction false} ParsesBack(x: Comment, rest: string)
    requires WellSpelled(x, '*')
    ensures ParseComment(Inside(x) + ("*/" + rest)) == Some((x, rest))
  {
    var s := Inside(x) + ("*/" + rest);
    match x
    case End =>
      assert s == "*/" + rest && s[2..] == rest;
    case Char(c, more) =>
      var tail := Inside(more) + ("*/" + rest);
      ParsesBack(more, rest);
      FirstIs(more, "*/" + rest);
      assert s == [c] + tail && s[1..] == tail && s[1] == tail[0];
    case Nested(inner, more) =>
      var tail := Inside(more) + ("*/" + rest);
      FiveJoin("/*", Inside(inner), "*/", Inside(more), "*/" + rest);
      assert s[2..] == Inside(inner) + ("*/" + tail);
      ParsesBack(inner, tail);
      ParsesBack(more, rest);
  }

  /** The parser finds a closed comment exactly when the text starts with one. */
  lemma CommentParses(s: string)
    ensures match ParseComment(s)
      case Some((x, rest)) => CommentStarts("/*" + s, x) && "/*" + s == CommentText(x) + rest
      case None => forall x :: !CommentStarts("/*" + s, x)
  {
    hide Inside, WellSpelled, ParseComment;
    match ParseComment(s)
    case Some((x, rest)) =>
      ParsedIsSpelled(s);
      assert "/*" + s == CommentText(x) + rest;
    case None =>
      forall x ensures !CommentStarts("/*" + s, x) {
        if CommentStarts("/*" + s, x) {
          var t := "/*" + s;
          var rest := t[|CommentText(x)|..];
          assert t == CommentText(x) + rest;
          assert s == t[2..] == Inside(x) + ("*/" + rest);
          ParsesBack(x, rest);
        }
      }
  }

  lemma BlockCommentTakes(wide: Wide, p: string, rest: string)
    requires IsBlockComment(p, rest)
    ensures Takes(wide, p, rest, Blank)
  {
    hide Inside, WellSpelled, BlockLen, WordToken, IsWord, ParseComment, QuotedLen, LineLen;
    if x :| CommentStarts(p, x) && p == CommentText(x) {
      CommentSpan(x, "*/" + rest, 1);
      BlockSteps(' ', rest, 1);
      assert (p + rest)[2..] == Inside(x) + ("*/" + rest);
    } else {
      var s := p[2..];
      assert p == "/*" + s && p + rest == p;
      CommentParses(s);
      UnparsedNeverCloses(s, 1);
    }
  }

  lemma {:induction false} ParsesStringBack(units: seq<Unit>, rest: string)
    requires PlainUnits(units)
    ensures ParseString(Spelled(units) + ['"'] + rest) == Some((units, rest))
    decreases |units|
  {
    var s := Spelled(units) + ['"'] + rest;
    if units == [] {
      assert s == ['"'] + rest && s[1..] == rest;
    } else {
      var tail := Spelled(units[1..]) + ['"'] + rest;
      ParsesStringBack(units[1..], rest);
      assert units == [units[0]] + units[1..];
      if units[0].Plain? {
        assert s[1..] == tail;
      } else {
        assert s[2..] == tail;
      }
    }
  }

  lemma StringParses(s: string)
    ensures match ParseString(s)
      case Some((units, rest)) => StringStarts(['"'] + s, units) && ['"'] + s == StringText(units) + rest
      case None => forall units :: !StringStarts(['"'] + s, units)
  {
    hide Spelled, PlainUnits, ParseString;
    ParsedStringIsSpelled(s);
    match ParseString(s)
    case Some((units, rest)) =>
      assert ['"'] + s == StringText(units) + rest;
    case None =>
      forall units ensures !StringStarts(['"'] + s, units) {
        if StringStarts(['"'] + s, units) {
          var t := ['"'] + s;
          var rest := t[|StringText(units)|..];
          assert t == StringText(units) + rest;
          assert s == t[1..] == Spelled(units) + ['"'] + rest;
          ParsesStringBack(units, rest);
        }
      }
  }

  lemma StringSpan(p: string, rest: string)
    requires IsString(p, rest)
    ensures p != [] && p[0] == '"' && QuotedLen((p + rest)[1..]) == |p| - 1
  {
    hide Spelled, PlainUnits, ParseString, QuotedLen;
    if units :| StringStarts(p, units) && p == StringText(units) {
      QuotedSpan(units, rest);
      assert (p + rest)[1..] == Spelled(units) + ['"'] + rest;
    } else {
      var s := p[1..];
      assert p == ['"'] + s && p + rest == p;
      StringParses(s);
      ParsedStringIsSpelled(s);
    }
  }

  lemma StringTakes(wide: Wide, p: string, rest: string)
    requires IsString(p, rest)
    ensures Takes(wide, p, rest, Blank)
  {
    hide IsString, QuotedLen;
    StringSpan(p, rest);
  }

  lemma PrefixedStringTakes(wide: Wide, c: char, p: string, rest: string)
    requires (c == 'b' || c == 'c') && IsString(p, rest)
    ensures Takes(wide, [c] + p, rest, Blank)
  {
    hide IsString, QuotedLen, RawLen, CharLen, BlockLen, LineLen;
    StringSpan(p, rest);
    var s := [c] + p + rest;
    WordLenIs(wide, s, 1);
    assert s[..1] == [c] && s[1..] == p + rest;
    assert s[1..][0] == '"';
  }

  lemma CharSpan(p: string, rest: string)
    requires IsChar(p)
    ensures CharLen(p + rest) == Some(|p|)
  {
    if p[1] == '\\' {
      hide CharRun;
      var body := p[3..|p| - 1];
      RunSpan(body, ['\''] + rest);
      assert (p + rest)[3..] == body + (['\''] + rest);
    }
  }

  /** A character literal starts here exactly when one is found. */
  lemma OpensCharIff(s: string)
    requires s != [] && s[0] == '\''
    ensures OpensChar(s) <==> CharLen(s).Some?
    ensures CharLen(s).Some? ==> IsChar(s[..CharLen(s).value])
  {
    if n :| 0 <= n <= |s| && IsChar(s[..n]) {
      CharSpan(s[..n], s[n..]);
      assert s == s[..n] + s[n..];
    }
    if CharLen(s).Some? {
      assert IsChar(s[..CharLen(s).value]);
    }
  }

  lemma CharTakes(wide: Wide, p: string, rest: string)
    requires IsChar(p)
    ensures Takes(wide, p, rest, Blank)
  {
    hide CharLen;
    CharSpan(p, rest);
  }

  lemma ByteCharTakes(wide: Wide, p: string, rest: string)
    requires IsChar(p)
    ensures Takes(wide, "b" + p, rest, Blank)
  {
    hide QuotedLen, RawLen, CharLen, BlockLen, LineLen;
    CharSpan(p, rest);
    var s := "b" + p + rest;
    WordLenIs(wide, s, 1);
    assert s[..1] == "b" && s[1..] == p + rest;
    assert s[1..][0] == '\'';
  }

  lemma NoCloseIff(body: string, hashes: nat)
    ensures NoClose(body, hashes) <==> !HoldsClose(body, hashes)
  {
    forall k | 0 <= k < |body|
      ensures ['"'] + Hashes(hashes) <= body[k..] <==> ClosesRaw(body[k..], hashes)
    {
      var s := body[k..];
      if ClosesRaw(s, hashes) {
        assert s[..1 + hashes] == ['"'] + s[1..1 + hashes];
        assert s[1..1 + hashes] == Hashes(hashes);
      }
      if ['"'] + Hashes(hashes) <= s {
        assert s[0] == (['"'] + Hashes(hashes))[0];
        assert s[1..1 + hashes] == (['"'] + Hashes(hashes))[1..];
      }
    }
  }

  lemma RawTakes(wide: Wide, prefix: string, p: string, rest: string)
    requires RawPrefix(prefix) && IsRaw(p, rest)
    ensures Takes(wide, prefix + p, rest, Blank)
  {
    hide RawLen, HashLen, NextToken, RawPrefix, Hashes, HoldsClose, NoClose;
    var hashes: nat, body: string :| RawSpells(p, rest, hashes, body);
    NoCloseIff(body, hashes);
    if p == Hashes(hashes) + ['"'] + body + ['"'] + Hashes(hashes) {
      assert prefix + p + rest == prefix + Hashes(hashes) + ['"'] + body + ['"'] + Hashes(hashes) + rest;
      RawStringIsHidden(wide, prefix, hashes, body, rest);
    } else {
      UnclosedRaw(body, hashes);
      RawToken(wide, prefix, hashes, body);
      assert prefix + p + rest == prefix + (Hashes(hashes) + (['"'] + body));
    }
  }

  lemma IdentTakes(wide: Wide, p: string, rest: string)
    requires "r#" <= p && AllWord(wide, p[2..]) && Breaks(wide, rest)
    ensures Takes(wide, p, rest, Ident)
  {
    hide NextToken, IsWord;
    var name := p[2..];
    assert p + rest == "r" + ("#" + (name + rest));
    RawIdentifierToken(wide, p + rest, "#" + (name + rest), name, rest);
  }

  lemma OpensRawIff(s: string)
    ensures OpensRaw(s) <==> HashLen(s) < |s| && s[HashLen(s)] == '"'
  {
    hide HashLen;
    if n :| 0 <= n < |s| && s[..n] == Hashes(n) && s[n] == '"' {
      HashSpan(n, s[n..]);
      assert s == Hashes(n) + s[n..];
    }
    assert s[..HashLen(s)] == Hashes(HashLen(s));
  }

  lemma RawIdentifierAhead(wide: Wide, rest: string)
    ensures (|rest| >= 2 && rest[0] == '#' && IsWord(wide, rest[1]))
       <==> (HashLen(rest) == 1 && 1 < |rest| && IsWord(wide, rest[1]))
  {
    WordCharacter(wide, '#');
    hide IsWord;
    if |rest| >= 2 && rest[0] == '#' && IsWord(wide, rest[1]) {
      assert rest == Hashes(1) + rest[1..];
      HashSpan(1, rest[1..]);
    }
    if HashLen(rest) >= 1 {
      assert rest[..HashLen(rest)][0] == '#';
    }
  }

  /** The word is a token of its own exactly when it opens no literal. */
  lemma WordTakesIff(wide: Wide, word: string, rest: string)
    requires AllWord(wide, word) && Breaks(wide, rest)
    ensures Takes(wide, word, rest, Keep) <==> !OpensLiteral(wide, word, rest)
    ensures OpensLiteral(wide, word, rest) ==> NextToken(wide, word + rest).mode != Keep
  {
    WordCharacter(wide, word[0]);
    hide IsWord, HashLen, RawLen, QuotedLen, CharLen, WordLen, LineLen, BlockLen, OpensRaw, OpensChar;
    var s := word + rest;
    WordLenIs(wide, s, |word|);
    assert s[..|word|] == word && s[|word|..] == rest && s[0] == word[0];
    OpensRawIff(rest);
    RawIdentifierAhead(wide, rest);
    OpensCharAt(rest);
  }

  lemma OpensCharAt(s: string)
    ensures OpensChar(s) <==> s != [] && s[0] == '\'' && CharLen(s).Some?
  {
    if s != [] && s[0] == '\'' {
      OpensCharIff(s);
    } else if n :| 0 <= n <= |s| && IsChar(s[..n]) {
      assert s[..n][0] == s[0];
    }
  }

  lemma StandsAloneTakes(wide: Wide, c: char, rest: string)
    requires StandsAlone(wide, c, rest)
    ensures Takes(wide, [c], rest, Keep)
  {
    hide IsWord, CharLen, OpensChar, QuotedLen, BlockLen, LineLen;
    var s := [c] + rest;
    if c == '\'' {
      OpensCharIff(s);
    }
    assert |s| >= 2 ==> s[1] == rest[0];
  }

  lemma PrefixedTakes(wide: Wide, p: string, rest: string)
    requires IsPrefixed(p, rest)
    ensures Takes(wide, p, rest, Blank)
  {
    hide Takes, IsString, IsRaw, IsChar;
    if p != [] { assert p == [p[0]] + p[1..]; }
    if ("b" <= p || "c" <= p) && IsString(p[1..], rest) {
      PrefixedStringTakes(wide, p[0], p[1..], rest);
    } else if "b" <= p && IsChar(p[1..]) {
      assert p == "b" + p[1..];
      ByteCharTakes(wide, p[1..], rest);
    } else if "r" <= p && IsRaw(p[1..], rest) {
      assert p == "r" + p[1..];
      RawTakes(wide, "r", p[1..], rest);
    } else {
      assert p == p[..2] + p[2..];
      RawTakes(wide, p[..2], p[2..], rest);
    }
  }

  /** Every piece of the grammar is the token the masker takes. */
  lemma LexemeTakes(wide: Wide, p: string, rest: string, mode: Mode)
    requires Lexeme(wide, p, rest, mode)
    ensures Takes(wide, p, rest, mode)
  {
    hide Takes, IsLineComment, IsBlockComment, IsString, IsChar, IsPrefixed, OpensLiteral, StandsAlone, AllWord, Breaks;
    match mode
    case Ident => IdentTakes(wide, p, rest);
    case Keep =>
      if AllWord(wide, p) && Breaks(wide, rest) && !OpensLiteral(wide, p, rest) {
        WordTakesIff(wide, p, rest);
      } else {
        assert p == [p[0]];
        StandsAloneTakes(wide, p[0], rest);
      }
    case Blank =>
      if IsLineComment(p, rest) {
        LineCommentTakes(wide, p, rest);
      } else if IsBlockComment(p, rest) {
        BlockCommentTakes(wide, p, rest);
      } else if IsString(p, rest) {
        StringTakes(wide, p, rest);
      } else if IsChar(p) {
        CharTakes(wide, p, rest);
      } else {
        PrefixedTakes(wide, p, rest);
      }
  }

  // ----- Every text starts with a piece -----

  lemma {:induction false} LineSplits(s: string)
    ensures '\n' !in s[..LineLen(s)] && (LineLen(s) < |s| ==> s[LineLen(s)] == '\n')
  {
    if s != [] && s[0] != '\n' {
      LineSplits(s[1..]);
      assert s[..LineLen(s)] == [s[0]] + s[1..][..LineLen(s[1..])];
    }
  }

  lemma LineCommentStarts(s: string) returns (p: string, rest: string)
    requires "//" <= s
    ensures s == p + rest && IsLineComment(p, rest)
  {
    hide LineLen;
    assert s[0] == "//"[0] && s[1] == "//"[1];
    LineSplits(s);
    var n := LineLen(s);
    assert n != 0 && n != 1;
    p, rest := s[..n], s[n..];
    assert p[..2] == s[..2];
  }

  lemma BlockCommentStarts(s: string) returns (p: string, rest: string)
    requires "/*" <= s
    ensures s == p + rest && IsBlockComment(p, rest)
  {
    hide Inside, WellSpelled, ParseComment;
    var t := s[2..];
    assert s == "/*" + t;
    CommentParses(t);
    match ParseComment(t)
    case Some((x, r)) =>
      p, rest := CommentText(x), r;
    case None =>
      p, rest := s, [];
  }

  lemma StringStartsHere(s: string) returns (p: string, rest: string)
    requires s != [] && s[0] == '"'
    ensures s == p + rest && IsString(p, rest)
  {
    hide Spelled, PlainUnits, ParseString;
    var t := s[1..];
    assert s == ['"'] + t;
    StringParses(t);
    match ParseString(t)
    case Some((units, r)) =>
      p, rest := StringText(units), r;
    case None =>
      p, rest := s, [];
  }

  lemma RawStarts(s: string) returns (p: string, rest: string)
    requires OpensRaw(s)
    ensures s == p + rest && IsRaw(p, rest)
  {
    hide Hashes, HoldsClose, NoClose;
    var n :| 0 <= n < |s| && s[..n] == Hashes(n) && s[n] == '"';
    var t := s[n + 1..];
    assert s == Hashes(n) + ['"'] + t;
    if HoldsClose(t, n) {
      var body, r := FirstClose(t, n);
      NoCloseIff(body, n);
      p, rest := Hashes(n) + ['"'] + body + ['"'] + Hashes(n), r;
      assert s == p + rest;
      assert RawSpells(p, rest, n, body);
    } else {
      NoCloseIff(t, n);
      p, rest := s, [];
      assert RawSpells(p, rest, n, t);
    }
  }

  lemma IdentStarts(wide: Wide, s: string) returns (p: string, rest: string)
    requires |s| >= 3 && s[0] == 'r' && s[1] == '#' && IsWord(wide, s[2])
    ensures s == p + rest && Lexeme(wide, p, rest, Ident)
  {
    hide IsWord, WordLen;
    var name := s[2..];
    WordStarts(wide, name);
    var n := 2 + WordLen(wide, name);
    p, rest := s[..n], s[n..];
    assert p[..2] == "r#" && p[2..] == name[..n - 2];
    assert rest != [] ==> rest[0] == name[n - 2];
  }

  lemma LiteralStarts(wide: Wide, word: string, behind: string) returns (p: string, rest: string, mode: Mode)
    requires OpensLiteral(wide, word, behind)
    ensures word + behind == p + rest && Lexeme(wide, p, rest, mode)
  {
    hide IsWord, OpensRaw, IsRaw, IsString, IsChar, AllWord, Breaks, IsLineComment, IsBlockComment;
    var q;
    if (word == "r" || word == "br" || word == "cr") && OpensRaw(behind) {
      q, rest := RawStarts(behind);
      p, mode := word + q, Blank;
      assert p[|word|..] == q && p[..|word|] == word;
      assert word + behind == p + rest;
    } else if word == "r" && |behind| >= 2 && behind[0] == '#' && IsWord(wide, behind[1]) {
      p, rest := IdentStarts(wide, word + behind);
      mode := Ident;
    } else if (word == "b" || word == "c") && behind != [] && behind[0] == '"' {
      q, rest := StringStartsHere(behind);
      p, mode := word + q, Blank;
      assert p[1..] == q && p[..1] == word;
      assert word + behind == p + rest;
    } else {
      var n :| 0 <= n <= |behind| && IsChar(behind[..n]);
      p, rest, mode := word + behind[..n], behind[n..], Blank;
      assert p[1..] == behind[..n] && p[..1] == word;
      assert word + behind == p + rest;
    }
  }

  lemma WordStartsHere(wide: Wide, s: string) returns (p: string, rest: string, mode: Mode)
    requires s != [] && IsWord(wide, s[0])
    ensures s == p + rest && Lexeme(wide, p, rest, mode)
  {
    hide IsWord, WordLen, OpensLiteral;
    WordStarts(wide, s);
    var w := WordLen(wide, s);
    p, rest, mode := s[..w], s[w..], Keep;
    assert s == p + rest;
    if OpensLiteral(wide, p, rest) {
      p, rest, mode := LiteralStarts(wide, p, rest);
    }
  }

  /** Every text starts with a piece of the grammar. */
  lemma TextStarts(wide: Wide, s: string) returns (p: string, rest: string, mode: Mode)
    requires s != []
    ensures s == p + rest && Lexeme(wide, p, rest, mode)
  {
    hide IsWord, IsLineComment, IsBlockComment, IsString, OpensLiteral, IsPrefixed, AllWord, Breaks;
    mode := Blank;
    if Opens(s, '/', '/') {
      assert s[..2] == "//";
      p, rest := LineCommentStarts(s);
    } else if Opens(s, '/', '*') {
      assert s[..2] == "/*";
      p, rest := BlockCommentStarts(s);
    } else if IsWord(wide, s[0]) {
      p, rest, mode := WordStartsHere(wide, s);
    } else if s[0] == '"' {
      p, rest := StringStartsHere(s);
    } else if OpensChar(s) {
      var n :| 0 <= n <= |s| && IsChar(s[..n]);
      p, rest := s[..n], s[n..];
    } else {
      p, rest, mode := s[..1], s[1..], Keep;
      assert s == [s[0]] + rest;
    }
  }

  // ----- The grammar and the masker agree -----

  /** The masker takes a token exactly when the grammar says that it is a piece. */
  lemma TokenIffLexeme(wide: Wide, p: string, rest: string, mode: Mode)
    requires p != []
    ensures NextToken(wide, p + rest) == Token(|p|, mode) <==> Lexeme(wide, p, rest, mode)
  {
    hide Lexeme, NextToken;
    if Lexeme(wide, p, rest, mode) {
      LexemeTakes(wide, p, rest, mode);
    }
    if NextToken(wide, p + rest) == Token(|p|, mode) {
      var q, r, m := TextStarts(wide, p + rest);
      LexemeTakes(wide, q, r, m);
      assert p == (p + rest)[..|p|] == q && rest == (p + rest)[|p|..] == r;
    }
  }

  /** How a piece is shown: code as it is, a raw identifier as underscores, anything else as spaces
      with its line breaks. */
  predicate ShownAs(r: string, p: string, mode: Mode) {
    && |r| == |p|
    && forall i | 0 <= i < |p| ::
         r[i] == if mode == Keep || (mode == Blank && p[i] == '\n') then p[i] else if mode == Ident then '_' else ' '
  }

  /** `r` is `s` with each of its pieces shown as the grammar says. */
  ghost predicate Masked(wide: Wide, r: string, s: string)
    decreases |s|
  {
    if s == [] then r == []
    else
      exists n: nat, mode: Mode ::
        && 0 < n <= |s| && n <= |r| && Lexeme(wide, s[..n], s[n..], mode)
        && ShownAs(r[..n], s[..n], mode) && Masked(wide, r[n..], s[n..])
  }

  lemma ShownIff(r: string, p: string, mode: Mode)
    ensures ShownAs(r, p, mode) <==> r == Rendered(p, mode)
  {
  }

  /** The masked text is the one text the grammar allows. */
  lemma {:induction false} MaskedIff(wide: Wide, r: string, s: string)
    ensures Masked(wide, r, s) <==> r == Mask(wide, s)
    decreases |s|
  {
    hide Lexeme, NextToken, ShownAs, Rendered;
    if s != [] {
      var t := NextToken(wide, s);
      assert s == s[..t.length] + s[t.length..];
      TokenIffLexeme(wide, s[..t.length], s[t.length..], t.mode);
      if r == Mask(wide, s) {
        var n := t.length;
        assert r[..n] == Rendered(s[..n], t.mode) && r[n..] == Mask(wide, s[n..]);
        ShownIff(r[..n], s[..n], t.mode);
        MaskedIff(wide, r[n..], s[n..]);
      }
      if Masked(wide, r, s) {
        var n: nat, mode: Mode :|
          && 0 < n <= |s| && n <= |r| && Lexeme(wide, s[..n], s[n..], mode)
          && ShownAs(r[..n], s[..n], mode) && Masked(wide, r[n..], s[n..]);
        assert s == s[..n] + s[n..];
        TokenIffLexeme(wide, s[..n], s[n..], mode);
        ShownIff(r[..n], s[..n], mode);
        MaskedIff(wide, r[n..], s[n..]);
        assert r == r[..n] + r[n..];
      }
    }
  }

  /** A whole word that opens no literal is code and stays. */
  lemma WordIsKept(wide: Wide, word: string, rest: string)
    requires AllWord(wide, word) && Breaks(wide, rest) && !OpensLiteral(wide, word, rest)
    ensures Mask(wide, word + rest) == word + Mask(wide, rest)
  {
    hide NextToken, Mask, OpensLiteral;
    WordTakesIff(wide, word, rest);
    MaskOfToken(wide, word, rest, Keep);
  }

  /** A character that opens nothing is code and stays. */
  lemma CharacterIsKept(wide: Wide, c: char, rest: string)
    requires StandsAlone(wide, c, rest)
    ensures Mask(wide, [c] + rest) == [c] + Mask(wide, rest)
  {
    hide NextToken, Mask, StandsAlone;
    StandsAloneTakes(wide, c, rest);
    MaskOfToken(wide, [c], rest, Keep);
  }

  const LETTERS := "abcdefghijklmnopqrstuvwxyz"
  const CAPITALS := "ABCDEFGHIJKLMNOPQRSTUVWXYZ"
  const DIGITS := "0123456789"

  lemma InRun(all: string, c: char)
    requires all != [] && forall i | 0 <= i < |all| :: all[i] as int == all[0] as int + i
    ensures c in all <==> all[0] <= c <= all[|all| - 1]
  {
    if all[0] <= c <= all[|all| - 1] {
      assert all[c as int - all[0] as int] == c;
    }
  }

  /** The word characters of ASCII. */
  lemma AsciiWords(wide: Wide, c: char)
    requires c as int < 128
    ensures IsWord(wide, c) <==> c in LETTERS || c in CAPITALS || c in DIGITS || c == '_'
  {
    InRun(LETTERS, c);
    InRun(CAPITALS, c);
    InRun(DIGITS, c);
  }

  // ----- Lines and stripped text -----

  /** The number of line breaks. */
  lemma {:induction false} NewlinesCount(s: string)
    ensures Newlines(s) == |Places(s, (c: char) => c == '\n')|
  {
    if s == [] {
      assert Places(s, (c: char) => c == '\n') == {};
    } else {
      hide Places;
      NewlinesCount(s[..|s| - 1]);
      PlacesStep(s, (c: char) => c == '\n');
    }
  }

  /** The last line starts behind the last line break. */
  lemma {:induction false} LineStartIs(s: string)
    ensures '\n' !in s[LineStart(s)..]
    ensures LineStart(s) > 0 ==> s[LineStart(s) - 1] == '\n'
  {
    if s != [] && s[|s| - 1] != '\n' {
      LineStartIs(s[..|s| - 1]);
      assert s[LineStart(s)..] == s[..|s| - 1][LineStart(s)..] + [s[|s| - 1]];
    }
  }

  /** `a` and `b` are the space around `t`. */
  predicate Trims(space: Space, s: string, a: string, t: string, b: string) {
    && s == a + t + b && AllSpace(space, a) && AllSpace(space, b)
    && (t != [] ==> !space(t[0]) && !space(t[|t| - 1]))
  }

  /** Stripping takes all the space off both ends and nothing else. */
  lemma {:induction false} StripTrims(space: Space, s: string) returns (a: string, b: string)
    ensures Trims(space, s, a, Strip(space, s), b)
    decreases |s|
  {
    a, b := [], [];
    if s != [] {
      if space(s[0]) {
        var more;
        more, b := StripTrims(space, s[1..]);
        a := [s[0]] + more;
        assert s == [s[0]] + s[1..];
      } else if space(s[|s| - 1]) {
        var more;
        a, more := StripTrims(space, s[..|s| - 1]);
        b := more + [s[|s| - 1]];
        assert s == s[..|s| - 1] + [s[|s| - 1]];
      }
    }
  }
}
