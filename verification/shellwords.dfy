/**
 * Ruby's `Shellwords.shellsplit`, which the externals parser uses to cut one
 * line into words: words are separated by runs of whitespace, and single
 * quotes, double quotes and backslashes let a word hold spaces. A quote that
 * is never closed raises `ArgumentError`, here `Err(UnmatchedQuote)`.
 *
 * The Ruby method scans the line with one regular expression; each match is a
 * piece (a run of ordinary characters, a single-quoted text, a double-quoted
 * text or a backslash escape), and pieces not separated by whitespace join
 * into one word. The functions below follow that structure piece by piece.
 */
module Shellwords {
  import opened Wrappers
  import Strings

  datatype Error = UnmatchedQuote

  /** Ruby's `\s`: space, tab, line feed, vertical tab, form feed, carriage return. */
  predicate IsSpace(c: char) {
    c == ' ' || c == '\t' || c == '\n' || c == '\U{000B}' || c == '\U{000C}' || c == '\r'
  }

  /** A character that stands for itself outside quotes. */
  predicate IsPlain(c: char) {
    !IsSpace(c) && c != '\\' && c != '\'' && c != '"'
  }

  /** `s` without its leading whitespace. */
  function SkipSpaces(s: string): (r: string)
    ensures |r| <= |s| && r == s[|s| - |r|..]
    ensures forall i :: 0 <= i < |s| - |r| ==> IsSpace(s[i])
    ensures r == [] || !IsSpace(r[0])
    decreases |s|
  {
    if s != [] && IsSpace(s[0]) then SkipSpaces(s[1..]) else s
  }

  /** The length of the longest prefix of `s` made of plain characters. */
  function PlainRun(s: string): (n: nat)
    ensures n <= |s|
    ensures forall i :: 0 <= i < n ==> IsPlain(s[i])
    ensures n < |s| ==> !IsPlain(s[n])
  {
    if s != [] && IsPlain(s[0]) then 1 + PlainRun(s[1..]) else 0
  }

  /**
   * The inside of a double-quoted piece; `s` starts after the opening quote.
   * A backslash followed by `$`, a backquote, `"`, `\` or a newline stands for
   * that character; before any other character it is kept. Returns the text
   * and what follows the closing quote.
   */
  function DoubleQuoted(s: string): (r: Result<(string, string), Error>)
    ensures r.Ok? ==> |r.value.1| < |s| && r.value.1 == s[|s| - |r.value.1|..]
    decreases |s|
  {
    if s == [] then Err(UnmatchedQuote)
    else if s[0] == '"' then Ok(([], s[1..]))
    else if s[0] == '\\' then
      if |s| == 1 then Err(UnmatchedQuote)
      else
        var text := if s[1] in "$`\"\\\n" then [s[1]] else s[..2];
        match DoubleQuoted(s[2..])
        case Err(e) => Err(e)
        case Ok((t, rest)) => Ok((text + t, rest))
    else
      match DoubleQuoted(s[1..])
      case Err(e) => Err(e)
      case Ok((t, rest)) => Ok(([s[0]] + t, rest))
  }

  /**
   * One piece of a word; `s` starts with a character that is not whitespace.
   * Returns the piece's text and the rest of the line after it.
   */
  function Piece(s: string): (r: Result<(string, string), Error>)
    requires s != [] && !IsSpace(s[0])
    ensures r.Ok? ==> |r.value.1| < |s| && r.value.1 == s[|s| - |r.value.1|..]
    ensures r.Err? ==> s[0] == '\'' || s[0] == '"'
  {
    if s[0] == '\'' then
      match Strings.IndexOf(s[1..], '\'')
      case None => Err(UnmatchedQuote)
      case Some(k) => Ok((s[1..k + 1], s[k + 2..]))
    else if s[0] == '"' then
      DoubleQuoted(s[1..])
    else if s[0] == '\\' then
      // a lone backslash at the end and a backslash before a newline stay as written
      if |s| == 1 then Ok((s, []))
      else if s[1] == '\n' then Ok((s[..2], s[2..]))
      else Ok(([s[1]], s[2..]))
    else
      var n := PlainRun(s);
      Ok((s[..n], s[n..]))
  }

  /** One word: the pieces up to the next whitespace or the end of the line. */
  function Word(s: string): (r: Result<(string, string), Error>)
    ensures r.Ok? ==> |r.value.1| <= |s| && r.value.1 == s[|s| - |r.value.1|..]
    ensures r.Ok? ==> r.value.1 == [] || IsSpace(r.value.1[0])
    ensures r.Ok? && s != [] && !IsSpace(s[0]) ==> |r.value.1| < |s|
    ensures r.Err? ==> '\'' in s || '"' in s
    decreases |s|
  {
    if s == [] || IsSpace(s[0]) then Ok(([], s))
    else match Piece(s)
      case Err(e) =>
        assert s[0] in s;
        Err(e)
      case Ok((p, rest)) =>
        match Word(rest)
        case Err(e) =>
          QuoteInSuffix(s, rest);
          Err(e)
        case Ok((w, after)) =>
          SuffixOfSuffix(s, rest, after);
          Ok((p + w, after))
  }

  lemma QuoteInSuffix(s: string, rest: string)
    requires |rest| <= |s| && rest == s[|s| - |rest|..]
    ensures '\'' in rest ==> '\'' in s
    ensures '"' in rest ==> '"' in s
  {
    forall c | c in rest ensures c in s {
      var i :| 0 <= i < |rest| && rest[i] == c;
      assert s[|s| - |rest| + i] == c;
    }
  }

  lemma SuffixOfSuffix(s: string, rest: string, after: string)
    requires |rest| <= |s| && rest == s[|s| - |rest|..]
    requires |after| <= |rest| && after == rest[|rest| - |after|..]
    ensures after == s[|s| - |after|..]
  {
  }

  // ----- one turn of `Piece` and `Word` -----

  lemma PieceSingle(s: string, k: nat)
    requires s != [] && s[0] == '\'' && Strings.IndexOf(s[1..], '\'') == Some(k)
    ensures k + 2 <= |s| && Piece(s) == Ok((s[1..k + 1], s[k + 2..]))
  {
  }

  lemma PieceDouble(s: string)
    requires s != [] && s[0] == '"'
    ensures Piece(s) == DoubleQuoted(s[1..])
  {
  }

  lemma PieceEscaped(s: string)
    requires |s| >= 2 && s[0] == '\\' && s[1] != '\n'
    ensures Piece(s) == Ok(([s[1]], s[2..]))
  {
  }

  lemma PiecePlain(s: string)
    requires s != [] && IsPlain(s[0])
    ensures Piece(s) == Ok((s[..PlainRun(s)], s[PlainRun(s)..]))
  {
  }

  lemma WordEnds(s: string)
    requires s == [] || IsSpace(s[0])
    ensures Word(s) == Ok(([], s))
  {
  }

  /** A word that goes on after its first piece. */
  lemma WordCons(s: string, p: string, rest: string, w: string, after: string)
    requires s != [] && !IsSpace(s[0])
    requires Piece(s) == Ok((p, rest)) && Word(rest) == Ok((w, after))
    ensures Word(s) == Ok((p + w, after))
  {
  }

  /** A word of one piece. */
  lemma WordOfPiece(s: string, p: string, tail: string)
    requires s != [] && !IsSpace(s[0])
    requires Piece(s) == Ok((p, tail)) && (tail == [] || IsSpace(tail[0]))
    ensures Word(s) == Ok((p, tail))
  {
    assert p + [] == p;
    WordEnds(tail);
    WordCons(s, p, tail, [], tail);
  }

  /** The parts of `w`, a closing quote `q` and `tail` run together. */
  lemma Closed(w: string, q: char, tail: string)
    ensures var t := w + [q] + tail; |t| > |w| && t[..|w|] == w && t[|w|] == q && t[|w| + 1..] == tail
  {
  }

  lemma Behead(c: char, t: string)
    ensures ([c] + t)[0] == c && ([c] + t)[1..] == t
  {
  }

  /**
   * `Shellwords.shellsplit(line)`: the words of `line`. Only an unclosed quote
   * makes it fail, so a line without quote characters always splits.
   */
  function Split(line: string): (r: Result<seq<string>, Error>)
    ensures r.Err? ==> '\'' in line || '"' in line
    decreases |line|
  {
    var t := SkipSpaces(line);
    if t == [] then Ok([])
    else match Word(t)
      case Err(e) => Err(e)
      case Ok((w, rest)) =>
        match Split(rest)
        case Err(e) => Err(e)
        case Ok(ws) => Ok([w] + ws)
  }

  // ----- quotes -----

  /** Where a left-to-right reading of a line stands: outside quotes, or inside a quoted text. */
  datatype Quoting = Outside | InSingle | InDouble

  /**
   * Whether a quoted text is still open at the end of `s`, reading it from
   * `q`. Outside quotes and inside double quotes a backslash takes the next
   * character with it; inside single quotes it is an ordinary character.
   */
  predicate Unclosed(s: string, q: Quoting)
    decreases |s|
  {
    if s == [] then q != Outside
    else match q
      case Outside =>
        if s[0] == '\\' then |s| >= 2 && Unclosed(s[2..], Outside)
        else if s[0] == '\'' then Unclosed(s[1..], InSingle)
        else if s[0] == '"' then Unclosed(s[1..], InDouble)
        else Unclosed(s[1..], Outside)
      case InSingle =>
        Unclosed(s[1..], if s[0] == '\'' then Outside else InSingle)
      case InDouble =>
        if s[0] == '\\' then |s| < 2 || Unclosed(s[2..], InDouble)
        else Unclosed(s[1..], if s[0] == '"' then Outside else InDouble)
  }

  /**
   * `shellsplit` raises exactly when the line leaves a quote open; every
   * other line splits.
   */
  lemma {:induction false} SplitFailsOnUnclosedQuote(line: string)
    ensures Split(line).Err? <==> Unclosed(line, Outside)
    decreases |line|
  {
    var t := SkipSpaces(line);
    UnclosedAfterSpaces(line);
    if t != [] {
      UnclosedAfterWord(t);
      match Word(t)
      case Err(_) =>
      case Ok((w, rest)) =>
        SplitFailsOnUnclosedQuote(rest);
    }
  }

  lemma {:induction false} UnclosedAfterSpaces(s: string)
    ensures Unclosed(SkipSpaces(s), Outside) == Unclosed(s, Outside)
    decreases |s|
  {
    if s != [] && IsSpace(s[0]) {
      assert s[0] != '\\' && s[0] != '\'' && s[0] != '"';
      assert SkipSpaces(s) == SkipSpaces(s[1..]);
      UnclosedAfterSpaces(s[1..]);
    }
  }

  /** Reading a word leaves the quoting as it found it, unless the word leaves a quote open. */
  lemma {:induction false} UnclosedAfterWord(s: string)
    ensures Word(s).Ok? ==> Unclosed(s, Outside) == Unclosed(Word(s).value.1, Outside)
    ensures Word(s).Err? ==> Unclosed(s, Outside)
    decreases |s|
  {
    if s != [] && !IsSpace(s[0]) {
      UnclosedAfterPiece(s);
      match Piece(s)
      case Err(_) =>
      case Ok((p, rest)) =>
        UnclosedAfterWord(rest);
    }
  }

  lemma UnclosedAfterPiece(s: string)
    requires s != [] && !IsSpace(s[0])
    ensures Piece(s).Ok? ==> Unclosed(s, Outside) == Unclosed(Piece(s).value.1, Outside)
    ensures Piece(s).Err? ==> Unclosed(s, Outside)
  {
    if s[0] == '\'' {
      UnclosedInSingle(s[1..]);
      match Strings.IndexOf(s[1..], '\'')
      case None =>
      case Some(k) =>
        assert s[1..][k + 1..] == s[k + 2..];
    } else if s[0] == '"' {
      UnclosedInDouble(s[1..]);
    } else if s[0] == '\\' {
    } else {
      UnclosedAfterPlain(s, PlainRun(s));
    }
  }

  lemma {:induction false} UnclosedAfterPlain(s: string, n: nat)
    requires n <= |s| && forall i :: 0 <= i < n ==> IsPlain(s[i])
    ensures Unclosed(s, Outside) == Unclosed(s[n..], Outside)
    decreases n
  {
    if n > 0 {
      assert IsPlain(s[0]);
      UnclosedAfterPlain(s[1..], n - 1);
      assert s[1..][n - 1..] == s[n..];
    }
  }

  /** Inside single quotes, the first quote closes the text; without one it stays open. */
  lemma {:induction false} UnclosedInSingle(t: string)
    ensures Strings.IndexOf(t, '\'').None? ==> Unclosed(t, InSingle)
    ensures Strings.IndexOf(t, '\'').Some? ==> Unclosed(t, InSingle) == Unclosed(t[Strings.IndexOf(t, '\'').value + 1..], Outside)
    decreases |t|
  {
    if t != [] && t[0] != '\'' {
      UnclosedInSingle(t[1..]);
      match Strings.IndexOf(t[1..], '\'')
      case None =>
      case Some(k) =>
        assert t[1..][k + 1..] == t[k + 2..];
    }
  }

  lemma {:induction false} UnclosedInDouble(t: string)
    ensures DoubleQuoted(t).Ok? ==> Unclosed(t, InDouble) == Unclosed(DoubleQuoted(t).value.1, Outside)
    ensures DoubleQuoted(t).Err? ==> Unclosed(t, InDouble)
    decreases |t|
  {
    if t == [] || t[0] == '"' {
    } else if t[0] == '\\' {
      if |t| >= 2 {
        UnclosedInDouble(t[2..]);
      }
    } else {
      UnclosedInDouble(t[1..]);
    }
  }

  /** A line that opens a single quote after some whitespace and never closes it fails. */
  lemma UnclosedSingleQuote(lead: string, w: string)
    requires IsBlank(lead) && '\'' !in w
    ensures Split(lead + "'" + w).Err?
  {
    var s := "'" + w;
    BlankThenUnclosed(lead, s);
    OpenSingle(w);
    assert s[1..] == w;
    SplitFailsOnUnclosedQuote(lead + s);
    Strings.Assoc(lead, "'", w);
  }

  lemma {:induction false} BlankThenUnclosed(lead: string, s: string)
    requires IsBlank(lead)
    ensures Unclosed(lead + s, Outside) == Unclosed(s, Outside)
    decreases |lead|
  {
    if lead != [] {
      var l := lead + s;
      assert l[0] == lead[0] && IsSpace(lead[0]);
      assert l[1..] == lead[1..] + s;
      assert IsBlank(lead[1..]) by {
        forall i | 0 <= i < |lead[1..]| ensures IsSpace(lead[1..][i]) {
          assert lead[1..][i] == lead[i + 1];
        }
      }
      BlankThenUnclosed(lead[1..], s);
    } else {
      assert lead + s == s;
    }
  }

  lemma {:induction false} OpenSingle(w: string)
    requires '\'' !in w
    ensures Unclosed(w, InSingle)
    decreases |w|
  {
    if w != [] {
      assert w[0] in w;
      assert forall c :: c in w[1..] ==> c in w;
      OpenSingle(w[1..]);
    }
  }

  /** A single-quoted text is one word holding exactly what is between the quotes, spaces included. */
  lemma SingleQuotedWord(w: string, tail: string)
    requires '\'' !in w
    requires tail == [] || IsSpace(tail[0])
    ensures Word("'" + w + "'" + tail) == Ok((w, tail))
  {
    var t := w + "'" + tail;
    Strings.Regroup("'", w, "'", tail);
    Behead('\'', t);
    Closed(w, '\'', tail);
    Strings.IndexOfFirst(t, '\'', |w|);
    PieceSingle("'" + t, |w|);
    assert ("'" + t)[1..|w| + 1] == t[..|w|];
    assert ("'" + t)[|w| + 2..] == t[|w| + 1..];
    WordOfPiece("'" + t, w, tail);
  }

  /** The text between double quotes that holds no backslash and no double quote is taken as it is. */
  lemma {:induction false} DoubleQuotedText(w: string, tail: string)
    requires '"' !in w && '\\' !in w
    ensures DoubleQuoted(w + "\"" + tail) == Ok((w, tail))
    decreases |w|
  {
    var t := w + "\"" + tail;
    if w == [] {
      assert t == "\"" + tail && t[1..] == tail;
    } else {
      assert w[0] in w;
      assert forall c :: c in w[1..] ==> c in w;
      DoubleQuotedText(w[1..], tail);
      assert t[1..] == w[1..] + "\"" + tail;
      assert [w[0]] + w[1..] == w;
    }
  }

  /** A double-quoted text without backslashes is one word holding what is between the quotes. */
  lemma DoubleQuotedWord(w: string, tail: string)
    requires '"' !in w && '\\' !in w
    requires tail == [] || IsSpace(tail[0])
    ensures Word("\"" + w + "\"" + tail) == Ok((w, tail))
  {
    var t := w + "\"" + tail;
    Strings.Regroup("\"", w, "\"", tail);
    Behead('"', t);
    DoubleQuotedText(w, tail);
    PieceDouble("\"" + t);
    WordOfPiece("\"" + t, w, tail);
  }

  /** A backslash outside quotes makes the next character, a space among others, part of the word. */
  lemma EscapedCharacter(c: char, tail: string)
    requires c != '\n'
    ensures Piece("\\" + [c] + tail) == Ok(([c], tail))
  {
    var s := "\\" + [c] + tail;
    assert s[1] == c && s[2..] == tail;
    PieceEscaped(s);
  }

  /** Two plain parts joined by an escaped space are one word with a space in it. */
  lemma EscapedSpaceWord(a: string, b: string, tail: string)
    requires IsPlainWord(a) && IsPlainWord(b)
    requires tail == [] || IsSpace(tail[0])
    ensures Word(a + "\\ " + b + tail) == Ok((a + " " + b, tail))
  {
    Strings.Assoc(a, " ", b);
    Strings.Regroup(a, "\\ ", b, tail);
    EscapedRest(b, tail);
    PlainThen(a, "\\ " + b + tail, " " + b, tail);
  }

  /** The escaped space and the plain part after it. */
  lemma EscapedRest(b: string, tail: string)
    requires IsPlainWord(b)
    requires tail == [] || IsSpace(tail[0])
    ensures Word("\\ " + b + tail) == Ok(([' '] + b, tail))
  {
    var r2 := b + tail;
    assert "\\ " == "\\" + [' '];
    Strings.Assoc("\\ ", b, tail);
    EscapedCharacter(' ', r2);
    WordOfPlain(b, tail);
    WordCons("\\ " + r2, [' '], r2, b, tail);
  }

  /** A plain part followed by something that is not plain continues the same word. */
  lemma PlainThen(a: string, r: string, v: string, tail: string)
    requires IsPlainWord(a) && r != [] && !IsPlain(r[0]) && !IsSpace(r[0])
    requires Word(r) == Ok((v, tail))
    ensures Word(a + r) == Ok((a + v, tail))
  {
    var s := a + r;
    PlainRunBefore(a, r);
    assert s[..|a|] == a && s[|a|..] == r;
    PiecePlain(s);
    WordCons(s, a, r, v, tail);
  }

  lemma PlainRunBefore(w: string, tail: string)
    requires IsPlainWord(w)
    requires tail == [] || !IsPlain(tail[0])
    ensures PlainRun(w + tail) == |w|
  {
    var s := w + tail;
    assert forall i :: 0 <= i < |w| ==> IsPlain(s[i]);
    assert |w| < |s| ==> !IsPlain(s[|w|]);
  }

  /** A word whose text differs from how it is written, after whitespace, then the words after it. */
  lemma SplitWord(lead: string, raw: string, value: string, tail: string, ws: seq<string>)
    requires IsBlank(lead) && raw != [] && !IsSpace(raw[0])
    requires Word(raw + tail) == Ok((value, tail))
    requires Split(tail) == Ok(ws)
    ensures Split(lead + raw + tail) == Ok([value] + ws)
  {
    var rest := raw + tail;
    assert rest[0] == raw[0];
    Strings.Assoc(lead, raw, tail);
    SkipBlank(lead, rest);
    SplitStep(lead + raw + tail, raw, value, tail, ws, [value] + ws);
  }

  /** `w` written between double quotes. */
  function DoubleQuote(w: string): (r: string)
    ensures |r| == |w| + 2 && r[0] == '"' && r[1..|w| + 1] == w && r[|w| + 1] == '"'
  {
    "\"" + w + "\""
  }

  /** A plain word, then a double-quoted one with spaces in it: two words, the quotes dropped. */
  lemma SplitPlainThenQuoted(lead: string, a: string, gap: string, w: string, end: string)
    requires IsBlank(lead) && IsBlank(gap) && gap != [] && IsBlank(end)
    requires IsPlainWord(a) && '"' !in w && '\\' !in w
    ensures Split(lead + a + gap + DoubleQuote(w) + end) == Ok([a, w])
  {
    assert [a, w] == [a] + [w];
    var quoted := DoubleQuote(w);
    var rest := gap + quoted + end;
    assert rest[0] == gap[0];
    Strings.Regroup(lead + a, gap, quoted, end);
    SplitQuoted(gap, w, end);
    WordOfPlain(a, rest);
    SplitWord(lead, a, a, rest, [w]);
  }

  /** A double-quoted word alone after whitespace. */
  lemma SplitQuoted(gap: string, w: string, end: string)
    requires IsBlank(gap) && gap != [] && IsBlank(end)
    requires '"' !in w && '\\' !in w
    ensures Split(gap + DoubleQuote(w) + end) == Ok([w])
  {
    DoubleQuotedWord(w, end);
    SplitOne(gap, DoubleQuote(w), w, end);
  }

  // ----- lines laid out as plain words separated by whitespace -----

  /** A non-empty word of plain characters: it needs no quoting. */
  predicate IsPlainWord(w: string) {
    w != [] && forall i :: 0 <= i < |w| ==> IsPlain(w[i])
  }

  predicate IsBlank(s: string) {
    forall i :: 0 <= i < |s| ==> IsSpace(s[i])
  }

  /** `words[0] + gaps[0] + words[1] + gaps[1] + ...` */
  function Layout(words: seq<string>, gaps: seq<string>): string
    requires |gaps| == |words|
  {
    if words == [] then [] else words[0] + gaps[0] + Layout(words[1..], gaps[1..])
  }

  /** Gaps that separate words: whitespace, and non-empty except after the last word. */
  predicate Separates(gaps: seq<string>) {
    && (forall i :: 0 <= i < |gaps| ==> IsBlank(gaps[i]))
    && (forall i :: 0 <= i < |gaps| - 1 ==> gaps[i] != [])
  }

  lemma SkipBlank(lead: string, rest: string)
    requires IsBlank(lead)
    requires rest == [] || !IsSpace(rest[0])
    ensures SkipSpaces(lead + rest) == rest
  {
    var s := lead + rest;
    assert s[|lead|..] == rest;
  }

  lemma PlainRunOf(w: string, tail: string)
    requires IsPlainWord(w)
    requires tail == [] || IsSpace(tail[0])
    ensures PlainRun(w + tail) == |w|
  {
    var s := w + tail;
    assert forall i :: 0 <= i < |w| ==> IsPlain(s[i]);
    assert |w| < |s| ==> !IsPlain(s[|w|]);
  }

  lemma PieceOfPlain(w: string, tail: string)
    requires IsPlainWord(w)
    requires tail == [] || IsSpace(tail[0])
    ensures Piece(w + tail) == Ok((w, tail))
  {
    var s := w + tail;
    PlainRunOf(w, tail);
    assert IsPlain(s[0]);
    assert s[..|w|] == w && s[|w|..] == tail;
    PiecePlain(s);
  }

  lemma WordOfPlain(w: string, tail: string)
    requires IsPlainWord(w)
    requires tail == [] || IsSpace(tail[0])
    ensures Word(w + tail) == Ok((w, tail))
  {
    var s := w + tail;
    PieceOfPlain(w, tail);
    assert s[0] == w[0];
    WordOfPiece(s, w, tail);
  }

  /**
   * Splitting is the inverse of laying plain words out with whitespace
   * between them: whatever the amount and kind of whitespace before, between
   * and after the words, the words come back unchanged.
   */
  lemma {:induction false} SplitLayout(lead: string, words: seq<string>, gaps: seq<string>)
    requires IsBlank(lead) && |gaps| == |words| && Separates(gaps)
    requires forall i :: 0 <= i < |words| ==> IsPlainWord(words[i])
    ensures Split(lead + Layout(words, gaps)) == Ok(words)
    decreases |words|, 1
  {
    var rest := Layout(words, gaps);
    if words == [] {
      SkipBlank(lead, rest);
    } else {
      SplitRest(gaps[0], words, gaps);
      SplitCons(lead, words, gaps);
    }
  }

  /** The first word, then what the rest of the layout splits into. */
  lemma SplitCons(lead: string, words: seq<string>, gaps: seq<string>)
    requires IsBlank(lead) && |gaps| == |words| > 0 && Separates(gaps) && IsPlainWord(words[0])
    requires Split(gaps[0] + Layout(words[1..], gaps[1..])) == Ok(words[1..])
    ensures Split(lead + Layout(words, gaps)) == Ok(words)
  {
    var w, tail := words[0], gaps[0] + Layout(words[1..], gaps[1..]);
    LayoutCons(words, gaps);
    SkipBlank(lead, Layout(words, gaps));
    WordOfPlain(w, tail);
    ConsTail(words);
    SplitStep(lead + Layout(words, gaps), w, w, tail, words[1..], words);
  }

  lemma ConsTail<T>(xs: seq<T>)
    requires xs != []
    ensures [xs[0]] + xs[1..] == xs
  {
  }

  lemma LayoutCons(words: seq<string>, gaps: seq<string>)
    requires |gaps| == |words| > 0 && Separates(gaps) && IsPlainWord(words[0])
    ensures var tail := gaps[0] + Layout(words[1..], gaps[1..]);
      && Layout(words, gaps) == words[0] + tail
      && Layout(words, gaps)[0] == words[0][0]
      && (tail == [] || IsSpace(tail[0]))
  {
    var g, more := gaps[0], Layout(words[1..], gaps[1..]);
    assert Layout(words, gaps) == words[0] + (g + more);
    if g == [] {
      assert |gaps| == 1;
      assert more == [];
    } else {
      assert IsBlank(gaps[0]);
    }
  }

  lemma LayoutOfTwo(w0: string, g0: string, w1: string, g1: string)
    ensures Layout([w0, w1], [g0, g1]) == w0 + g0 + w1 + g1
  {
    assert [w0, w1][1..] == [w1] && [g0, g1][1..] == [g1];
    assert Layout([w1], [g1]) == w1 + g1 + Layout([], []);
  }

  lemma LayoutOfThree(w0: string, g0: string, w1: string, g1: string, w2: string, g2: string)
    ensures Layout([w0, w1, w2], [g0, g1, g2]) == w0 + g0 + w1 + g1 + w2 + g2
  {
    assert [w0, w1, w2][1..] == [w1, w2] && [g0, g1, g2][1..] == [g1, g2];
    LayoutOfTwo(w1, g1, w2, g2);
  }

  /** A line of one word, written `raw` and read as `value`, with whitespace around it. */
  lemma SplitOne(lead: string, raw: string, value: string, end: string)
    requires IsBlank(lead) && IsBlank(end) && raw != [] && !IsSpace(raw[0])
    requires Word(raw + end) == Ok((value, end))
    ensures Split(lead + raw + end) == Ok([value])
  {
    assert [value] + [] == [value];
    SplitBlank(end);
    SplitWord(lead, raw, value, end, []);
  }

  lemma SplitBlank(s: string)
    requires IsBlank(s)
    ensures Split(s) == Ok([])
  {
    SkipBlank(s, []);
    assert s + [] == s;
  }

  lemma SplitStep(line: string, raw: string, value: string, tail: string, ws: seq<string>, words: seq<string>)
    requires SkipSpaces(line) == raw + tail && raw != []
    requires Word(raw + tail) == Ok((value, tail))
    requires Split(tail) == Ok(ws) && words == [value] + ws
    ensures Split(line) == Ok(words)
  {
  }

  lemma {:induction false} SplitRest(g: string, words: seq<string>, gaps: seq<string>)
    requires |gaps| == |words| > 0 && g == gaps[0] && Separates(gaps)
    requires forall i :: 0 <= i < |words| ==> IsPlainWord(words[i])
    ensures Split(g + Layout(words[1..], gaps[1..])) == Ok(words[1..])
    decreases |words|, 0
  {
    assert IsBlank(g);
    assert Separates(gaps[1..]) by {
      forall i | 0 <= i < |gaps[1..]| ensures IsBlank(gaps[1..][i]) {
        assert gaps[1..][i] == gaps[i + 1];
      }
      forall i | 0 <= i < |gaps[1..]| - 1 ensures gaps[1..][i] != [] {
        assert gaps[1..][i] == gaps[i + 1];
      }
    }
    assert forall i :: 0 <= i < |words[1..]| ==> IsPlainWord(words[1..][i]) by {
      forall i | 0 <= i < |words[1..]| ensures IsPlainWord(words[1..][i]) {
        assert words[1..][i] == words[i + 1];
      }
    }
    SplitLayout(g, words[1..], gaps[1..]);
  }
}
