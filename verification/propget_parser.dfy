/**
 * `SourceControl::Subversion::PropgetParser`: reads the listing printed by
 * `svn propget -R svn:externals` and maps `"<property dir>/<checkout dir>"`
 * to the absolute URL of each external.
 *
 * A line holding " - " names the directory the property is set on; the text
 * after it, like every other line, is one definition. A definition is either
 * `<dir> <url>` (Subversion before 1.5, recognised by the scheme of the second
 * word) or `<url> <dir>` (1.5 and later), where the URL may be written
 * relative to the property's directory (`../`), to the repository root
 * (`^/`), to the scheme (`//`) or to the server (`/`).
 *
 * The Ruby code does not rescue the exceptions raised along the way (an
 * unclosed quote, a relative URL with nothing to resolve it against), so one
 * bad line aborts the whole parse; here that is an `Err`.
 */
module PropgetParser {
  import opened Wrappers
  import Strings
  import Shellwords
  import Uri

  /** What the parser reads from the working copy: `repository` and `info.repository_root`. */
  datatype Repository = Repository(url: string, root: string)

  /** Why a line aborts the parse. */
  datatype Error =
    | UnmatchedQuote                  // `Shellwords.shellsplit` raised ArgumentError
    | Unresolvable(why: ResolveError) // `resolve_external_url` raised

  /** Why `resolve_external_url` raises. */
  datatype ResolveError =
    | NoPropertyTarget    // a `../` URL before any " - " line: `nil + '/'`
    | RelativeBase        // `URI.join` had no URL with a scheme to resolve against
    | NoRepositoryScheme  // a `//` URL, and the repository URL has no scheme: `nil + ':'`
    | NoServerPrefix      // a `/` URL, and the repository URL has no `scheme://server`

  /** One definition: where the external comes from and the directory it is checked out to. */
  datatype External = External(url: string, directory: string)

  // ----- resolve_external_url -----

  /** How an external's URL is written, by its first characters. */
  datatype Shorthand = ParentRelative | RootRelative | SchemeRelative | ServerRelative | Verbatim

  /**
   * The prefixes are tried in the order `../`, `^/`, `//`, `/`. Each URL has
   * exactly one shorthand; only `//` and `/` overlap, and `//` wins.
   */
  function ShorthandOf(url: string): (k: Shorthand)
    ensures k == ParentRelative <==> "../" <= url
    ensures k == RootRelative <==> "^/" <= url
    ensures k == SchemeRelative <==> "//" <= url
    ensures k == ServerRelative <==> "/" <= url && !("//" <= url)
    ensures k == Verbatim <==> !("../" <= url) && !("^/" <= url) && !("/" <= url)
  {
    FirstCharacter(url);
    if "../" <= url then ParentRelative
    else if "^/" <= url then RootRelative
    else if "//" <= url then SchemeRelative
    else if "/" <= url then ServerRelative
    else Verbatim
  }

  lemma FirstCharacter(url: string)
    ensures "../" <= url ==> url[0] == '.'
    ensures "^/" <= url ==> url[0] == '^'
    ensures "//" <= url ==> "/" <= url
    ensures "/" <= url ==> url[0] == '/'
  {
    if "../" <= url { assert url[0] == "../"[0]; }
    if "^/" <= url { assert url[0] == "^/"[0]; }
    if "/" <= url { assert url[0] == "/"[0]; }
  }

  function JoinError(r: Result<string, Uri.Error>): Result<string, ResolveError> {
    match r
    case Ok(u) => Ok(u)
    case Err(_) => Err(RelativeBase)
  }

  /**
   * `resolve_external_url(url, property_target)`: the absolute form of an
   * external's URL. `target` is the directory the property is set on, `None`
   * before the first " - " line.
   */
  function ResolveExternalUrl(repo: Repository, url: string, target: Option<string>): (r: Result<string, ResolveError>)
    ensures ShorthandOf(url) == Verbatim ==> r == Ok(url)
    ensures ShorthandOf(url) == ParentRelative && target.None? ==> r == Err(NoPropertyTarget)
    ensures ShorthandOf(url) == SchemeRelative ==>
      && (r.Ok? <==> Uri.HasScheme(repo.url))
      && (r.Ok? ==> r.value == Uri.Scheme(repo.url).value + ":" + url)
      && (r.Ok? ==> Uri.Scheme(r.value) == Uri.Scheme(repo.url))
    ensures ShorthandOf(url) == ServerRelative ==>
      && (r.Ok? <==> Uri.Origin(repo.url).Some?)
      && (r.Ok? ==> Uri.Origin(r.value) == Uri.Origin(repo.url) && Uri.Parse(r.value).path == url)
    ensures r.Err? ==> ShorthandOf(url) != Verbatim
  {
    match ShorthandOf(url)
    case ParentRelative =>
      (match target
       case None => Err(NoPropertyTarget)
       case Some(t) =>
         match Uri.Join(repo.url + "/", t + "/")
         case Err(_) => Err(RelativeBase)
         case Ok(base) => JoinError(Uri.Join(base, url)))
    case RootRelative => JoinError(Uri.Join(repo.root + "/", url[2..]))
    case SchemeRelative =>
      (match Uri.Scheme(repo.url)
       case None => Err(NoRepositoryScheme)
       case Some(scheme) =>
         Uri.SchemeOfPrefixed(scheme, url);
         Ok(scheme + ":" + url))
    case ServerRelative =>
      (match Uri.Origin(repo.url)
       case None => Err(NoServerPrefix)
       case Some(origin) =>
         Uri.OriginThenPath(repo.url, url);
         Ok(origin + url))
    case Verbatim => Ok(url)
  }

  /**
   * A `../` URL under a repository URL with a server resolves to a URL on the
   * same server, with an absolute path and no "." or ".." left in it.
   */
  lemma ParentRelativeStaysOnServer(repo: Repository, url: string, t: string)
    requires "../" <= url
    requires Uri.Origin(repo.url).Some?
    requires Uri.IsPathReference(t + "/")
    ensures var r := ResolveExternalUrl(repo, url, Some(t));
      && r.Ok?
      && Uri.Origin(r.value) == Uri.Origin(repo.url)
      && Uri.RemoveDotSegments(Uri.Parse(r.value).path) == Uri.Parse(r.value).path
  {
    Uri.OriginSlash(repo.url);
    Uri.JoinPath(repo.url + "/", t + "/");
    var base := Uri.Join(repo.url + "/", t + "/").value;
    assert Uri.IsPathReference(url) by {
      FirstCharacter(url);
    }
    ParentRelativeJoins(repo, url, t, base);
    Uri.JoinPath(base, url);
  }

  /**
   * A `../` URL, with the repository at `scheme://authority` + `p` and the
   * property set on `t`: the URL is resolved inside the directory `p/t/`,
   * the dot segments of both steps removed.
   */
  lemma ParentRelativeValue(repo: Repository, scheme: string, authority: string, p: string, url: string, t: string)
    requires Uri.IsSchemeName(scheme) && '/' !in authority
    requires p == [] || p[0] == '/'
    requires repo.url == scheme + "://" + authority + p
    requires Uri.IsPathReference(t + "/") && t != [] && t[0] != '/'
    requires "../" <= url
    ensures ResolveExternalUrl(repo, url, Some(t))
      == Ok(scheme + "://" + authority + Uri.RemoveDotSegments(Uri.RemoveDotSegments(p + "/" + (t + "/")) + url))
  {
    var origin := scheme + "://" + authority;
    assert repo.url + "/" == origin + (p + "/");
    assert (p + "/")[0] == '/' && (t + "/")[0] == t[0] && (t + "/")[|t|] == '/';
    FirstCharacter(url);
    assert Uri.IsPathReference(url) by { assert url[0] == '.'; }
    Uri.JoinTwice(scheme, authority, p + "/", t + "/", url);
    ParentRelativeJoins(repo, url, t, origin + Uri.RemoveDotSegments(p + "/" + (t + "/")));
  }

  /**
   * A `^/` URL, with the repository root at `scheme://authority` + `p`: the
   * rest of the URL is resolved under the root, its dot segments removed.
   */
  lemma RootRelativeValue(repo: Repository, scheme: string, authority: string, p: string, url: string, target: Option<string>)
    requires Uri.IsSchemeName(scheme) && '/' !in authority
    requires p == [] || p[0] == '/'
    requires repo.root == scheme + "://" + authority + p
    requires "^/" <= url && Uri.IsPathReference(url[2..]) && url != "^/" && url[2] != '/'
    ensures ResolveExternalUrl(repo, url, target)
      == Ok(scheme + "://" + authority + Uri.RemoveDotSegments(p + "/" + url[2..]))
  {
    var origin := scheme + "://" + authority;
    assert repo.root + "/" == origin + (p + "/");
    var dir := p + "/";
    assert dir[0] == '/' && dir[|dir| - 1] == '/';
    var rel := url[2..];
    assert rel != [] && rel[0] != '/';
    RootRelativeJoins(repo, url, target);
    Uri.JoinUnderDirectory(scheme, authority, dir, rel);
  }

  lemma ParentRelativeJoins(repo: Repository, url: string, t: string, base: string)
    requires "../" <= url && Uri.Join(repo.url + "/", t + "/") == Ok(base)
    ensures ResolveExternalUrl(repo, url, Some(t)) == JoinError(Uri.Join(base, url))
  {
    FirstCharacter(url);
  }

  lemma RootRelativeJoins(repo: Repository, url: string, target: Option<string>)
    requires "^/" <= url
    ensures ResolveExternalUrl(repo, url, target) == JoinError(Uri.Join(repo.root + "/", url[2..]))
  {
    FirstCharacter(url);
  }

  /** `^/` alone stands for the repository root itself. */
  lemma RootItself(repo: Repository, target: Option<string>)
    requires Uri.Origin(repo.root).Some?
    ensures ResolveExternalUrl(repo, "^/", target) == Ok(repo.root + "/")
  {
    RootRelativeJoins(repo, "^/", target);
    assert "^/"[2..] == [];
    JoinRoot(repo.root);
  }

  /**
   * A `^/` URL followed by a path resolves on the server of the repository
   * root, with an absolute path and no "." or ".." left in it.
   */
  lemma RootRelativeStaysOnServer(repo: Repository, url: string, target: Option<string>)
    requires "^/" <= url && url != "^/"
    requires Uri.Origin(repo.root).Some?
    requires Uri.IsPathReference(url[2..])
    ensures var r := ResolveExternalUrl(repo, url, target);
      && r.Ok?
      && Uri.Origin(r.value) == Uri.Origin(repo.root)
      && Uri.RemoveDotSegments(Uri.Parse(r.value).path) == Uri.Parse(r.value).path
  {
    RootRelativeJoins(repo, url, target);
    JoinUnderRoot(repo.root, url[2..]);
  }

  lemma JoinRoot(root: string)
    requires Uri.Origin(root).Some?
    ensures Uri.Join(root + "/", []) == Ok(root + "/")
  {
    Uri.OriginSlash(root);
    Uri.OriginHasScheme(root + "/");
    Uri.JoinEmpty(root + "/");
  }

  lemma JoinUnderRoot(root: string, rel: string)
    requires Uri.Origin(root).Some?
    requires Uri.IsPathReference(rel) && rel != []
    ensures var r := Uri.Join(root + "/", rel);
      && r.Ok?
      && Uri.Origin(r.value) == Uri.Origin(root)
      && Uri.RemoveDotSegments(Uri.Parse(r.value).path) == Uri.Parse(r.value).path
  {
    Uri.OriginSlash(root);
    Uri.JoinPath(root + "/", rel);
  }

  // ----- parse_line -----

  /**
   * `parse_line(line, property_target)`: the external a line defines, `None`
   * for a comment and for a line that does not split into exactly two words.
   */
  function ParseLine(repo: Repository, line: string, target: Option<string>): (r: Result<Option<External>, Error>)
    ensures "#" <= line ==> r == Ok(None)
    ensures r == Err(UnmatchedQuote) <==> !("#" <= line) && Shellwords.Split(line).Err?
    ensures r == Err(UnmatchedQuote) ==> '\'' in line || '"' in line
    ensures !("#" <= line) && Shellwords.Split(line).Ok? && |Shellwords.Split(line).value| != 2 ==> r == Ok(None)
    ensures r.Ok? && r.value.Some? ==>
      && Shellwords.Split(line).Ok? && |Shellwords.Split(line).value| == 2
      && r.value.value.directory in Shellwords.Split(line).value
  {
    if "#" <= line then Ok(None)
    else match Shellwords.Split(line)
      case Err(_) => Err(UnmatchedQuote)
      case Ok(args) =>
        if |args| != 2 then Ok(None)
        else if Uri.HasScheme(args[1]) then
          // the format of Subversion before 1.5
          Ok(Some(External(args[1], args[0])))
        else
          // the format of Subversion 1.5 and later
          match ResolveExternalUrl(repo, args[0], target)
          case Err(e) => Err(Unresolvable(e))
          case Ok(url) => Ok(Some(External(url, args[1])))
  }

  /**
   * A line that does not have exactly two words defines nothing: a blank line,
   * or an external pinned with `-r N`.
   */
  lemma WrongArityIsSkipped(repo: Repository, lead: string, words: seq<string>, gaps: seq<string>, target: Option<string>)
    requires Shellwords.IsBlank(lead) && |gaps| == |words| && Shellwords.Separates(gaps)
    requires forall i :: 0 <= i < |words| ==> Shellwords.IsPlainWord(words[i])
    requires |words| != 2
    ensures ParseLine(repo, lead + Shellwords.Layout(words, gaps), target) == Ok(None)
  {
    Shellwords.SplitLayout(lead, words, gaps);
  }

  /**
   * `<dir> <url>` with a scheme on the second word, whatever the whitespace
   * around them: both words are taken as they are.
   */
  lemma OldFormat(repo: Repository, lead: string, dir: string, gap: string, url: string, end: string, target: Option<string>)
    requires Shellwords.IsBlank(lead) && Shellwords.IsBlank(gap) && gap != [] && Shellwords.IsBlank(end)
    requires Shellwords.IsPlainWord(dir) && Shellwords.IsPlainWord(url)
    requires lead != [] || dir[0] != '#'
    requires Uri.HasScheme(url)
    ensures ParseLine(repo, lead + dir + gap + url + end, target) == Ok(Some(External(url, dir)))
  {
    TwoWords(lead, dir, gap, url, end);
    ParseTwoWords(repo, lead + dir + gap + url + end, dir, url, target);
  }

  /**
   * `<url> <dir>` with no scheme on the second word: the URL is resolved and
   * the directory is the second word as it is.
   */
  lemma NewFormat(repo: Repository, lead: string, url: string, gap: string, dir: string, end: string, target: Option<string>)
    requires Shellwords.IsBlank(lead) && Shellwords.IsBlank(gap) && gap != [] && Shellwords.IsBlank(end)
    requires Shellwords.IsPlainWord(url) && Shellwords.IsPlainWord(dir)
    requires lead != [] || url[0] != '#'
    requires !Uri.HasScheme(dir)
    ensures var r := ResolveExternalUrl(repo, url, target);
      ParseLine(repo, lead + url + gap + dir + end, target)
        == if r.Ok? then Ok(Some(External(r.value, dir))) else Err(Unresolvable(r.error))
  {
    TwoWords(lead, url, gap, dir, end);
    ParseTwoWords(repo, lead + url + gap + dir + end, url, dir, target);
  }

  /**
   * A directory with spaces in it, written between double quotes after the
   * URL: the directory is what is between the quotes.
   */
  lemma QuotedDirectory(repo: Repository, lead: string, url: string, gap: string, dir: string, end: string, target: Option<string>)
    requires Shellwords.IsBlank(lead) && Shellwords.IsBlank(gap) && gap != [] && Shellwords.IsBlank(end)
    requires Shellwords.IsPlainWord(url) && '"' !in dir && '\\' !in dir
    requires lead != [] || url[0] != '#'
    requires !Uri.HasScheme(dir)
    ensures var r := ResolveExternalUrl(repo, url, target);
      ParseLine(repo, lead + url + gap + Shellwords.DoubleQuote(dir) + end, target)
        == if r.Ok? then Ok(Some(External(r.value, dir))) else Err(Unresolvable(r.error))
  {
    var line := lead + url + gap + Shellwords.DoubleQuote(dir) + end;
    Shellwords.SplitPlainThenQuoted(lead, url, gap, dir, end);
    StartsWithWord(lead, url, gap, Shellwords.DoubleQuote(dir), end);
    ParseTwoWords(repo, line, url, dir, target);
  }

  /** Whitespace, or a first word not starting with '#', in front: the line is no comment. */
  lemma StartsWithWord(lead: string, w: string, gap: string, x: string, end: string)
    requires Shellwords.IsBlank(lead) && Shellwords.IsPlainWord(w)
    requires lead != [] || w[0] != '#'
    ensures !("#" <= lead + w + gap + x + end)
  {
    var line := lead + w + gap + x + end;
    if lead != [] {
      assert line[0] == lead[0] && Shellwords.IsSpace(lead[0]);
    } else {
      assert line[0] == w[0];
    }
  }

  /** A line that is not a comment and splits into two words. */
  lemma ParseTwoWords(repo: Repository, line: string, w0: string, w1: string, target: Option<string>)
    requires !("#" <= line) && Shellwords.Split(line) == Ok([w0, w1])
    ensures Uri.HasScheme(w1) ==> ParseLine(repo, line, target) == Ok(Some(External(w1, w0)))
    ensures !Uri.HasScheme(w1) ==> var r := ResolveExternalUrl(repo, w0, target);
      ParseLine(repo, line, target) == if r.Ok? then Ok(Some(External(r.value, w1))) else Err(Unresolvable(r.error))
  {
  }

  /**
   * A line that is not a comment aborts the parse with an unmatched quote
   * exactly when it leaves a quote open.
   */
  lemma UnclosedQuoteAborts(repo: Repository, line: string, target: Option<string>)
    requires !("#" <= line)
    ensures ParseLine(repo, line, target) == Err(UnmatchedQuote) <==> Shellwords.Unclosed(line, Shellwords.Outside)
  {
    Shellwords.SplitFailsOnUnclosedQuote(line);
  }

  /** Two plain words with whitespace around them: split back, and no comment. */
  lemma TwoWords(lead: string, w0: string, gap: string, w1: string, end: string)
    requires Shellwords.IsBlank(lead) && Shellwords.IsBlank(gap) && gap != [] && Shellwords.IsBlank(end)
    requires Shellwords.IsPlainWord(w0) && Shellwords.IsPlainWord(w1)
    requires lead != [] || w0[0] != '#'
    ensures Shellwords.Split(lead + w0 + gap + w1 + end) == Ok([w0, w1])
    ensures !("#" <= lead + w0 + gap + w1 + end)
  {
    var words, gaps := [w0, w1], [gap, end];
    assert Shellwords.Separates(gaps);
    Shellwords.SplitLayout(lead, words, gaps);
    NotComment(lead, words, gaps);
    Shellwords.LayoutOfTwo(w0, gap, w1, end);
    var line := lead + Shellwords.Layout(words, gaps);
    assert line == lead + (w0 + gap + w1 + end);
    Regroup(lead, w0, gap, w1, end);
  }

  lemma Regroup(a: string, b: string, c: string, d: string, e: string)
    ensures a + (b + c + d + e) == a + b + c + d + e
  {
  }

  /** Whitespace in front, or a first word not starting with '#': the line is no comment. */
  lemma NotComment(lead: string, words: seq<string>, gaps: seq<string>)
    requires Shellwords.IsBlank(lead) && |gaps| == |words| > 0 && Shellwords.Separates(gaps)
    requires Shellwords.IsPlainWord(words[0])
    requires lead != [] || words[0][0] != '#'
    ensures !("#" <= lead + Shellwords.Layout(words, gaps))
  {
    var line := lead + Shellwords.Layout(words, gaps);
    Shellwords.LayoutCons(words, gaps);
    if lead != [] {
      assert line[0] == lead[0] && Shellwords.IsSpace(lead[0]);
    } else {
      assert line[0] == words[0][0];
    }
  }

  // ----- the " - " header of a line -----

  /** " - " starts at index `j` of `s`. */
  predicate SeparatorAt(s: string, j: int) {
    0 <= j && j + 3 <= |s| && s[j] == ' ' && s[j + 1] == '-' && s[j + 2] == ' '
  }

  predicate NoSeparator(s: string) {
    forall j :: 0 <= j < |s| ==> !SeparatorAt(s, j)
  }

  /** Where the first " - " of `s` starts. */
  function FindSeparator(s: string): (r: Option<nat>)
    ensures r.Some? ==> SeparatorAt(s, r.value) && forall j :: 0 <= j < r.value ==> !SeparatorAt(s, j)
    ensures r.None? ==> NoSeparator(s)
    decreases |s|
  {
    if |s| < 3 then None
    else if SeparatorAt(s, 0) then Some(0)
    else
      ShiftSeparator(s);
      match FindSeparator(s[1..])
      case None => None
      case Some(k) => Some(k + 1)
  }

  lemma ShiftSeparator(s: string)
    requires s != []
    ensures forall j :: 1 <= j ==> (SeparatorAt(s, j) <==> SeparatorAt(s[1..], j - 1))
  {
    forall j | 1 <= j ensures SeparatorAt(s, j) <==> SeparatorAt(s[1..], j - 1) {
      if j + 2 < |s| {
        assert s[1..][j - 1] == s[j] && s[1..][j] == s[j + 1] && s[1..][j + 1] == s[j + 2];
      }
    }
  }

  /**
   * The fields of `s` between its separators, found left to right without
   * overlapping: they hold no separator, put back together they give `s`,
   * and the first one ends where the first separator starts.
   */
  function Fields(s: string): (r: seq<string>)
    ensures |r| >= 1
    ensures Interleave(r) == s
    ensures forall i :: 0 <= i < |r| ==> NoSeparator(r[i])
    ensures FindSeparator(s).None? ==> r == [s]
    ensures FindSeparator(s).Some? ==> r[0] == s[..FindSeparator(s).value]
    ensures FindSeparator(s).Some? ==> |r| >= 2 && r[1] == FirstField(s[FindSeparator(s).value + 3..])
    decreases |s|
  {
    match FindSeparator(s)
    case None => [s]
    case Some(k) =>
      var fs := Fields(s[k + 3..]);
      assert s == s[..k] + " - " + s[k + 3..];
      assert ([s[..k]] + fs)[1..] == fs;
      NoSeparatorBefore(s, k);
      [s[..k]] + fs
  }

  /** The text up to the first separator, or all of it when there is none. */
  function FirstField(s: string): string
  {
    match FindSeparator(s)
    case None => s
    case Some(k) => s[..k]
  }

  /** The text before the first separator holds none. */
  lemma NoSeparatorBefore(s: string, k: nat)
    requires k <= |s| && forall j :: 0 <= j < k ==> !SeparatorAt(s, j)
    ensures NoSeparator(s[..k])
  {
    forall j | 0 <= j < k ensures !SeparatorAt(s[..k], j) {
      if j + 3 <= k {
        assert !SeparatorAt(s, j);
        assert s[..k][j] == s[j] && s[..k][j + 1] == s[j + 1] && s[..k][j + 2] == s[j + 2];
      }
    }
  }

  /** The fields put back together with " - " between them. */
  function Interleave(fs: seq<string>): string
    requires |fs| >= 1
  {
    if |fs| == 1 then fs[0] else fs[0] + " - " + Interleave(fs[1..])
  }

  /** The fields without the empty ones at the end. */
  function DropTrailingEmpty(fs: seq<string>): (r: seq<string>)
    ensures r <= fs
    ensures r == [] || r[|r| - 1] != []
    ensures forall i :: |r| <= i < |fs| ==> fs[i] == []
  {
    if fs != [] && fs[|fs| - 1] == [] then DropTrailingEmpty(fs[..|fs| - 1]) else fs
  }

  /**
   * Ruby's `s.split(" - ")`: fields without separators, the last one not
   * empty, that put back together start `s`; what is dropped after them is
   * made of separators only.
   */
  function RubySplit(s: string): (r: seq<string>)
    ensures forall i :: 0 <= i < |r| ==> NoSeparator(r[i])
    ensures r == [] || r[|r| - 1] != []
    ensures r != [] ==> Interleave(r) <= s
    ensures |r| > 1 ==> FindSeparator(s).Some? && r[0] == s[..FindSeparator(s).value]
    ensures |r| > 1 ==> r[1] == FirstField(s[FindSeparator(s).value + 3..])
  {
    var fs := Fields(s);
    var r := DropTrailingEmpty(fs);
    if r != [] then
      KeptFields(fs, r);
      r
    else r
  }

  /** Fields kept from the front: their first two are the first two of all. */
  lemma KeptFields(fs: seq<string>, r: seq<string>)
    requires r != [] && r <= fs
    ensures Interleave(r) <= Interleave(fs)
    ensures |r| > 1 ==> r[0] == fs[0] && r[1] == fs[1]
  {
    assert fs[..|r|] == r;
    InterleavePrefix(fs, |r|);
  }

  /** The first `n` fields put together start the whole. */
  lemma {:induction false} InterleavePrefix(fs: seq<string>, n: nat)
    requires 1 <= n <= |fs|
    ensures Interleave(fs[..n]) <= Interleave(fs)
    decreases n
  {
    if n > 1 {
      InterleavePrefix(fs[1..], n - 1);
      assert fs[..n][1..] == fs[1..][..n - 1];
      assert fs[..n][0] == fs[0];
      PrefixAfter(fs[0] + " - ", Interleave(fs[1..][..n - 1]), Interleave(fs[1..]));
    }
  }

  lemma PrefixAfter(a: string, b: string, c: string)
    requires b <= c
    ensures a + b <= a + c
  {
    assert (a + c)[..|a + b|] == a + c[..|b|];
  }

  /**
   * The first two fields of a line that has more than one: the directory the
   * property is set on and the definition after it. The text after a second
   * " - " is lost.
   */
  function SplitHeader(line: string): (r: (Option<string>, string))
    ensures FindSeparator(line).None? ==> r == (None, line)
    ensures r.0.None? ==> r.1 == line
    ensures r.0.Some? ==>
      && r.0.value == line[..FindSeparator(line).value]
      && NoSeparator(r.0.value) && NoSeparator(r.1)
      && r.0.value + " - " + r.1 <= line
    ensures r.0.Some? ==> r.1 == FirstField(line[FindSeparator(line).value + 3..])
  {
    var fields := RubySplit(line);
    if |fields| > 1 then
      InterleaveFront(fields);
      PrefixTrans(fields[0] + " - " + fields[1], Interleave(fields), line);
      (Some(fields[0]), fields[1])
    else
      assert FindSeparator(line).None? ==> Fields(line) == [line];
      (None, line)
  }

  lemma PrefixTrans(a: string, b: string, c: string)
    requires a <= b && b <= c
    ensures a <= c
  {
    assert c[..|a|] == b[..|a|];
  }

  /** The first two fields with the separator between them start the whole. */
  lemma InterleaveFront(fs: seq<string>)
    requires |fs| >= 2
    ensures fs[0] + " - " + fs[1] <= Interleave(fs)
  {
    InterleavePrefix(fs[1..], 1);
    assert fs[1..][..1] == [fs[1]];
    PrefixAfter(fs[0] + " - ", fs[1], Interleave(fs[1..]));
  }

  /** A line without " - " is not a header and is parsed whole. */
  lemma NoSeparatorNoHeader(line: string)
    requires NoSeparator(line)
    ensures SplitHeader(line) == (None, line)
  {
  }

  /**
   * `dir - rest` names `dir` and leaves `rest`, when the " - " between them is
   * the only one and `rest` is not empty.
   */
  lemma HeaderLine(dir: string, rest: string)
    requires NoSeparator(dir + " ") && NoSeparator(" " + rest)
    requires rest != []
    ensures SplitHeader(dir + " - " + rest) == (Some(dir), rest)
  {
    var line := dir + " - " + rest;
    FirstSeparator(dir, rest);
    assert line[..|dir|] == dir && line[|dir| + 3..] == rest;
    assert NoSeparator(rest) by {
      forall j | 0 <= j < |rest| ensures !SeparatorAt(rest, j) {
        assert !SeparatorAt(" " + rest, j + 1);
      }
    }
    assert FindSeparator(rest).None?;
    assert Fields(line) == [dir] + Fields(rest) == [dir, rest];
  }

  /** A line ending with " - " is not a header: Ruby drops the empty last field. */
  lemma TrailingSeparatorNoHeader(dir: string)
    requires NoSeparator(dir + " ")
    ensures SplitHeader(dir + " - ") == (None, dir + " - ")
  {
    var line := dir + " - ";
    FirstSeparator(dir, []);
    assert line + [] == line && line[..|dir|] == dir && line[|dir| + 3..] == [];
    assert Fields(line) == [dir, []];
  }

  /** The text after a second " - " is not part of the definition. */
  lemma SecondSeparatorDropped(dir: string, rest: string, more: string)
    requires NoSeparator(dir + " ") && NoSeparator(" " + rest + " ")
    requires rest != []
    ensures SplitHeader(dir + " - " + rest + " - " + more) == (Some(dir), rest)
  {
    var tail := rest + " - " + more;
    var line := dir + " - " + tail;
    assert line == dir + " - " + rest + " - " + more;
    assert NoSeparator(" " + rest) by {
      forall j | 0 <= j < |rest| + 1 ensures !SeparatorAt(" " + rest, j) {
        assert !SeparatorAt(" " + rest + " ", j);
      }
    }
    assert NoSeparator(rest + " ") by {
      forall j | 0 <= j < |rest| + 1 ensures !SeparatorAt(rest + " ", j) {
        assert !SeparatorAt(" " + rest + " ", j + 1);
      }
    }
    FirstSeparator(dir, tail);
    FirstSeparator(rest, more);
    assert line[..|dir|] == dir && line[|dir| + 3..] == tail;
    assert tail[..|rest|] == rest && tail[|rest| + 3..] == more;
    var fs := Fields(more);
    assert Fields(tail) == [rest] + fs;
    assert Fields(line) == [dir] + Fields(tail) == [dir, rest] + fs;
    DropKeepsTwo([dir, rest], fs);
  }

  lemma DropKeepsTwo(front: seq<string>, fs: seq<string>)
    requires |front| == 2 && front[1] != []
    ensures |DropTrailingEmpty(front + fs)| >= 2
    ensures DropTrailingEmpty(front + fs)[..2] == front
  {
    var r := DropTrailingEmpty(front + fs);
    assert (front + fs)[1] == front[1];
    assert r[..2] == (front + fs)[..2] == front;
  }

  /** The first " - " of `dir + " - " + rest` is the one after `dir`. */
  lemma FirstSeparator(dir: string, rest: string)
    requires NoSeparator(dir + " ")
    ensures FindSeparator(dir + " - " + rest) == Some(|dir|)
  {
    var line := dir + " - " + rest;
    forall j | 0 <= j < |dir| ensures !SeparatorAt(line, j) {
      if j + 2 < |dir| + 1 {
        assert !SeparatorAt(dir + " ", j);
        assert line[j] == (dir + " ")[j] && line[j + 1] == (dir + " ")[j + 1] && line[j + 2] == (dir + " ")[j + 2];
      } else {
        assert line[j + 1] == ' ';
      }
    }
    assert SeparatorAt(line, |dir|);
  }

  /** A text without spaces holds no " - ". */
  lemma NoSpaceNoSeparator(s: string)
    requires ' ' !in s
    ensures NoSeparator(s)
  {
    forall j | 0 <= j < |s| ensures !SeparatorAt(s, j) {
      assert s[j] in s;
    }
  }

  /** Two texts without " - " make one when put together only if it straddles the place where they meet. */
  lemma NoSeparatorJoin(a: string, b: string)
    requires NoSeparator(a) && NoSeparator(b)
    requires a != [] && |b| >= 2 ==> !(a[|a| - 1] == ' ' && b[0] == '-' && b[1] == ' ')
    requires |a| >= 2 && b != [] ==> !(a[|a| - 2] == ' ' && a[|a| - 1] == '-' && b[0] == ' ')
    ensures NoSeparator(a + b)
  {
    var s := a + b;
    forall j | 0 <= j < |s| ensures !SeparatorAt(s, j) {
      if j + 3 <= |a| {
        assert s[j] == a[j] && s[j + 1] == a[j + 1] && s[j + 2] == a[j + 2];
        assert !SeparatorAt(a, j);
      } else if |a| <= j && j + 3 <= |s| {
        assert s[j] == b[j - |a|] && s[j + 1] == b[j + 1 - |a|] && s[j + 2] == b[j + 2 - |a|];
        assert !SeparatorAt(b, j - |a|);
      } else if j + 3 <= |s| {
        if j == |a| - 1 {
          assert s[j] == a[|a| - 1] && s[j + 1] == b[0] && s[j + 2] == b[1];
        } else {
          assert s[j] == a[|a| - 2] && s[j + 1] == a[|a| - 1] && s[j + 2] == b[0];
        }
      }
    }
  }

  // ----- String#lines -----

  /** A whole line: it ends with its only newline. */
  predicate IsLine(l: string) {
    l != [] && l[|l| - 1] == '\n' && '\n' !in l[..|l| - 1]
  }

  /** Ruby's `text.lines`: each line keeps its newline; the last one may have none. */
  function Lines(text: string): (r: seq<string>)
    ensures Strings.Concat(r) == text
    ensures forall i :: 0 <= i < |r| - 1 ==> IsLine(r[i])
    ensures r != [] ==> r[|r| - 1] != [] && '\n' !in r[|r| - 1][..|r[|r| - 1]| - 1]
    decreases |text|
  {
    if text == [] then []
    else match Strings.IndexOf(text, '\n')
      case None =>
        NoNewlineBefore(text);
        [text]
      case Some(k) =>
        CutAfter(text, k);
        [text[..k + 1]] + Lines(text[k + 1..])
  }

  lemma NoNewlineBefore(text: string)
    requires text != [] && '\n' !in text
    ensures '\n' !in text[..|text| - 1]
  {
    assert text[..|text| - 1] <= text;
  }

  /** Cutting `text` after its first newline, at `k`. */
  lemma CutAfter(text: string, k: nat)
    requires k < |text| && text[k] == '\n' && '\n' !in text[..k]
    ensures var line := text[..k + 1]; IsLine(line) && text == line + text[k + 1..]
  {
    var line := text[..k + 1];
    assert line[..|line| - 1] == text[..k];
  }

  /** Cutting text that is made of whole lines gives those lines back. */
  lemma {:induction false} LinesOfConcat(ls: seq<string>)
    requires forall i :: 0 <= i < |ls| ==> IsLine(ls[i])
    ensures Lines(Strings.Concat(ls)) == ls
  {
    if ls != [] {
      var l, rest := ls[0], Strings.Concat(ls[1..]);
      var text := l + rest;
      assert IsLine(l);
      assert text[|l| - 1] == '\n';
      assert forall i :: 0 <= i < |l| - 1 ==> text[i] == l[i] && l[i] in l[..|l| - 1];
      assert Strings.IndexOf(text, '\n') == Some(|l| - 1);
      assert text[..|l|] == l && text[|l|..] == rest;
      LinesOfConcat(ls[1..]);
      assert [l] + ls[1..] == ls;
    }
  }

  // ----- parse -----

  /** What `parse` is given: the listing as one text, or already as lines. */
  datatype Input = Text(text: string) | LineList(lines: seq<string>)

  function LinesOf(input: Input): seq<string> {
    match input
    case Text(t) => Lines(t)
    case LineList(ls) => ls
  }

  /**
   * The key an external is stored under: the directory of the property, '/'
   * and the checkout directory; an unset directory reads as "".
   */
  function Key(dir: Option<string>, directory: string): (r: string)
    ensures dir.None? ==> r == "/" + directory
    ensures dir.Some? ==> dir.value <= r
    ensures |r| > |directory| && r[|r| - |directory| - 1] == '/' && r[|r| - |directory|..] == directory
  {
    var d := if dir.Some? then dir.value else [];
    var r := d + "/" + directory;
    assert r[..|d|] == d && r[|d|] == '/' && r[|d| + 1..] == directory;
    r
  }

  /** Under the same directory, different checkout directories get different keys. */
  lemma KeyInjective(dir: Option<string>, a: string, b: string)
    ensures Key(dir, a) == Key(dir, b) <==> a == b
  {
    var d := if dir.Some? then dir.value else [];
    if Key(dir, a) == Key(dir, b) {
      assert a == Key(dir, a)[|d| + 1..];
      assert b == Key(dir, b)[|d| + 1..];
    }
  }

  /**
   * How one line is read: `parse_line` of a repository, as a value, so that
   * the loop below can be reasoned about whatever the lines mean.
   */
  type LineReader = (string, Option<string>) -> Result<Option<External>, Error>

  function Reader(repo: Repository): LineReader {
    (line: string, target: Option<string>) => ParseLine(repo, line, target)
  }

  /** The variables of the loop in `parse`. */
  datatype State = State(currentDir: Option<string>, directories: map<string, string>)

  /**
   * One turn of the loop: the header, then the definition. A header becomes
   * the current directory; no entry is removed, and at most one is added.
   */
  function Step(read: LineReader, s: State, line: string): (r: Result<State, Error>)
    ensures r.Ok? ==> r.value.currentDir == if SplitHeader(line).0.Some? then SplitHeader(line).0 else s.currentDir
    ensures r.Ok? ==> s.directories.Keys <= r.value.directories.Keys
    ensures r.Ok? ==> |r.value.directories| <= |s.directories| + 1
  {
    var (header, rest) := SplitHeader(line);
    var dir := if header.Some? then header else s.currentDir;
    match read(rest, dir)
    case Err(e) => Err(e)
    case Ok(None) => Ok(State(dir, s.directories))
    case Ok(Some(ext)) => Ok(State(dir, s.directories[Key(dir, ext.directory) := ext.url]))
  }

  /** The loop over `lines`, stopped by the first line that raises: at most one entry a line. */
  function Run(read: LineReader, lines: seq<string>): (r: Result<State, Error>)
    ensures r.Ok? ==> |r.value.directories| <= |lines|
    decreases |lines|
  {
    if lines == [] then Ok(State(None, map[]))
    else match Run(read, lines[..|lines| - 1])
      case Err(e) => Err(e)
      case Ok(s) => Step(read, s, lines[|lines| - 1])
  }

  /** The map `parse` returns, at most one entry a line; `FailsOnBadLine` says when it fails. */
  function Directories(read: LineReader, lines: seq<string>): (r: Result<map<string, string>, Error>)
    ensures r.Ok? ==> |r.value| <= |lines|
  {
    match Run(read, lines)
    case Err(e) => Err(e)
    case Ok(s) => Ok(s.directories)
  }

  /** A line that raises stops the loop for good. */
  lemma {:induction false} RunStopsAtError(read: LineReader, lines: seq<string>, i: nat)
    requires i <= |lines| && Run(read, lines[..i]).Err?
    ensures Run(read, lines) == Run(read, lines[..i])
    decreases |lines| - i
  {
    if i < |lines| {
      assert lines[..i + 1][..i] == lines[..i];
      RunStopsAtError(read, lines, i + 1);
    } else {
      assert lines[..i] == lines;
    }
  }

  /** The loop, run over every line: the map `parse` returns. */
  lemma RunToEnd(read: LineReader, lines: seq<string>, i: nat, s: State)
    requires i == |lines| && Run(read, lines[..i]) == Ok(s)
    ensures Directories(read, lines) == Ok(s.directories)
  {
    assert lines[..i] == lines;
  }

  /** The loop, stopped by a line that raises: the error `parse` raises. */
  lemma RunToError(read: LineReader, lines: seq<string>, i: nat, e: Error)
    requires i <= |lines| && Run(read, lines[..i]) == Err(e)
    ensures Directories(read, lines) == Err(e)
  {
    RunStopsAtError(read, lines, i);
  }

  lemma RunStep(read: LineReader, lines: seq<string>, i: nat, s: State)
    requires i < |lines| && Run(read, lines[..i]) == Ok(s)
    ensures Run(read, lines[..i + 1]) == Step(read, s, lines[i])
  {
    assert lines[..i + 1][..i] == lines[..i] && lines[..i + 1][i] == lines[i];
  }

  lemma StepIs(read: LineReader, s: State, line: string, dir: Option<string>, rest: string, entry: Result<Option<External>, Error>)
    requires dir == (if SplitHeader(line).0.Some? then SplitHeader(line).0 else s.currentDir)
    requires rest == (if SplitHeader(line).0.Some? then SplitHeader(line).1 else line)
    requires entry == read(rest, dir)
    ensures Step(read, s, line) == match entry
      case Err(e) => Err(e)
      case Ok(None) => Ok(State(dir, s.directories))
      case Ok(Some(ext)) => Ok(State(dir, s.directories[Key(dir, ext.directory) := ext.url]))
  {
  }

  /** The loop over one more line is one more turn. */
  lemma RunSnoc(read: LineReader, ls: seq<string>, line: string, s: State)
    requires Run(read, ls) == Ok(s)
    ensures Run(read, ls + [line]) == Step(read, s, line)
  {
    assert (ls + [line])[..|ls|] == ls;
  }

  /**
   * A line `dir - rest` makes `dir` the current directory and stores the
   * definition in `rest` under it.
   */
  lemma HeaderStep(read: LineReader, s: State, dir: string, rest: string, entry: Option<External>)
    requires NoSeparator(dir + " ") && NoSeparator(" " + rest) && rest != []
    requires read(rest, Some(dir)) == Ok(entry)
    ensures Step(read, s, dir + " - " + rest) == Ok(State(Some(dir),
      if entry.Some? then s.directories[Key(Some(dir), entry.value.directory) := entry.value.url] else s.directories))
  {
    HeaderLine(dir, rest);
  }

  /**
   * A line without " - " keeps the current directory and stores its
   * definition under it.
   */
  lemma PlainStep(read: LineReader, s: State, line: string, entry: Option<External>)
    requires NoSeparator(line)
    requires read(line, s.currentDir) == Ok(entry)
    ensures Step(read, s, line) == Ok(State(s.currentDir,
      if entry.Some? then s.directories[Key(s.currentDir, entry.value.directory) := entry.value.url] else s.directories))
  {
    NoSeparatorNoHeader(line);
  }

  // ----- what parse promises, line by line -----

  /** The directory the latest header among `lines` names; `None` before any header. */
  function LastHeader(lines: seq<string>): Option<string>
    decreases |lines|
  {
    if lines == [] then None
    else if SplitHeader(lines[|lines| - 1]).0.Some? then SplitHeader(lines[|lines| - 1]).0
    else LastHeader(lines[..|lines| - 1])
  }

  /** What line `i` means in its own right: its definition read under the header in force. */
  function Outcome(read: LineReader, lines: seq<string>, i: nat): Result<Option<External>, Error>
    requires i < |lines|
  {
    read(SplitHeader(lines[i]).1, LastHeader(lines[..i + 1]))
  }

  /** The key and URL line `i` stores, if it stores one. */
  function EntryAt(read: LineReader, lines: seq<string>, i: nat): Option<(string, string)>
    requires i < |lines|
  {
    match Outcome(read, lines, i)
    case Ok(Some(ext)) => Some((Key(LastHeader(lines[..i + 1]), ext.directory), ext.url))
    case _ => None
  }

  /** `init` is `lines` without its last line. */
  predicate IsInit(init: seq<string>, lines: seq<string>) {
    |lines| == |init| + 1 && init == lines[..|init|]
  }

  /** Dropping the last line does not change what the other lines mean. */
  lemma OutcomeOfInit(read: LineReader, init: seq<string>, lines: seq<string>, i: nat)
    requires IsInit(init, lines) && i < |init|
    ensures Outcome(read, init, i) == Outcome(read, lines, i)
    ensures EntryAt(read, init, i) == EntryAt(read, lines, i)
  {
    assert init[..i + 1] == lines[..i + 1];
  }

  lemma OutcomesOfInit(read: LineReader, init: seq<string>, lines: seq<string>)
    requires IsInit(init, lines)
    ensures forall i :: 0 <= i < |init| ==> Outcome(read, init, i) == Outcome(read, lines, i)
    ensures forall i :: 0 <= i < |init| ==> EntryAt(read, init, i) == EntryAt(read, lines, i)
  {
    forall i | 0 <= i < |init|
      ensures Outcome(read, init, i) == Outcome(read, lines, i)
      ensures EntryAt(read, init, i) == EntryAt(read, lines, i)
    {
      OutcomeOfInit(read, init, lines, i);
    }
  }

  /** The current directory after some lines is the one the latest header named. */
  lemma {:induction false} CurrentDirIsLastHeader(read: LineReader, lines: seq<string>)
    requires Run(read, lines).Ok?
    ensures Run(read, lines).value.currentDir == LastHeader(lines)
    decreases |lines|
  {
    if lines != [] {
      CurrentDirIsLastHeader(read, lines[..|lines| - 1]);
    }
  }

  /** The last turn of the loop does what the last line means in its own right. */
  lemma LastTurn(read: LineReader, init: seq<string>, lines: seq<string>)
    requires IsInit(init, lines) && Run(read, init).Ok?
    ensures var n, s := |init|, Run(read, init).value;
      && (Outcome(read, lines, n).Err? ==> Run(read, lines) == Err(Outcome(read, lines, n).error))
      && (Outcome(read, lines, n).Ok? ==>
            Run(read, lines).Ok?
            && Run(read, lines).value.directories ==
                 if EntryAt(read, lines, n).Some?
                 then s.directories[EntryAt(read, lines, n).value.0 := EntryAt(read, lines, n).value.1]
                 else s.directories)
  {
    var n := |init|;
    assert lines[..n + 1] == lines;
    var s := Run(read, init).value;
    CurrentDirIsLastHeader(read, init);
    var line := lines[n];
    var (header, rest) := SplitHeader(line);
    var dir := if header.Some? then header else s.currentDir;
    assert dir == LastHeader(lines);
    assert Run(read, lines) == Step(read, s, line);
    var entry := read(rest, dir);
    assert Outcome(read, lines, n) == entry;
    StepIs(read, s, line, dir, rest, entry);
    StepOutcome(s, dir, entry, Step(read, s, line), EntryAt(read, lines, n));
  }

  /** The turn as the line's outcome and entry say. */
  lemma StepOutcome(s: State, dir: Option<string>, entry: Result<Option<External>, Error>,
                    r: Result<State, Error>, e: Option<(string, string)>)
    requires r == match entry
      case Err(e) => Err(e)
      case Ok(None) => Ok(State(dir, s.directories))
      case Ok(Some(ext)) => Ok(State(dir, s.directories[Key(dir, ext.directory) := ext.url]))
    requires e == match entry
      case Ok(Some(ext)) => Some((Key(dir, ext.directory), ext.url))
      case _ => None
    ensures entry.Err? ==> r == Err(entry.error)
    ensures entry.Ok? ==> r.Ok? && r.value.directories == if e.Some? then s.directories[e.value.0 := e.value.1] else s.directories
  {
  }

  /** The parse fails exactly when some line fails in its own right. */
  lemma {:induction false} FailsOnBadLine(read: LineReader, lines: seq<string>)
    ensures Run(read, lines).Err? <==> HasBadLine(read, lines)
    ensures Directories(read, lines).Err? <==> HasBadLine(read, lines)
    decreases |lines|
  {
    if lines != [] {
      var init := lines[..|lines| - 1];
      FailsOnBadLine(read, init);
      BadLineOfInit(read, init, lines);
      FailsOfInit(read, init, lines);
    }
  }

  /** Some line fails in its own right. */
  predicate HasBadLine(read: LineReader, lines: seq<string>) {
    exists i :: 0 <= i < |lines| && Outcome(read, lines, i).Err?
  }

  /** A bad line of `lines` is a bad line of `init` or the last line. */
  lemma BadLineOfInit(read: LineReader, init: seq<string>, lines: seq<string>)
    requires IsInit(init, lines)
    ensures HasBadLine(read, lines) <==> HasBadLine(read, init) || Outcome(read, lines, |init|).Err?
  {
    if HasBadLine(read, lines) {
      BadLineIsKept(read, init, lines);
    }
    BadLineStays(read, init, lines);
  }

  lemma BadLineIsKept(read: LineReader, init: seq<string>, lines: seq<string>)
    requires IsInit(init, lines) && HasBadLine(read, lines)
    ensures HasBadLine(read, init) || Outcome(read, lines, |init|).Err?
  {
    var i :| 0 <= i < |lines| && Outcome(read, lines, i).Err?;
    if i < |init| {
      OutcomeOfInit(read, init, lines, i);
      assert HasBadLine(read, init);
    } else {
      assert i == |init|;
    }
  }

  lemma BadLineStays(read: LineReader, init: seq<string>, lines: seq<string>)
    requires IsInit(init, lines)
    ensures HasBadLine(read, init) ==> HasBadLine(read, lines)
    ensures Outcome(read, lines, |init|).Err? ==> HasBadLine(read, lines)
  {
    if HasBadLine(read, init) {
      var i :| 0 <= i < |init| && Outcome(read, init, i).Err?;
      OutcomeOfInit(read, init, lines, i);
      assert 0 <= i < |lines| && Outcome(read, lines, i).Err?;
    }
    if Outcome(read, lines, |init|).Err? {
      assert 0 <= |init| < |lines| && Outcome(read, lines, |init|).Err?;
    }
  }

  /** The loop over `lines` fails when it failed on `init` or fails on the last line. */
  lemma FailsOfInit(read: LineReader, init: seq<string>, lines: seq<string>)
    requires IsInit(init, lines)
    ensures Run(read, lines).Err? <==> Run(read, init).Err? || Outcome(read, lines, |init|).Err?
  {
    if Run(read, init).Ok? {
      LastTurn(read, init, lines);
    } else {
      assert lines[..|lines| - 1] == init;
    }
  }

  /** When the parse fails, it fails with the error of the first bad line. */
  lemma {:induction false} FailsOnFirstBadLine(read: LineReader, lines: seq<string>, i: nat)
    requires i < |lines| && Outcome(read, lines, i).Err?
    requires forall j :: 0 <= j < i ==> Outcome(read, lines, j).Ok?
    ensures Run(read, lines) == Err(Outcome(read, lines, i).error)
    decreases |lines|
  {
    var init := lines[..|lines| - 1];
    forall j | 0 <= j < i && j < |init| ensures Outcome(read, init, j).Ok? {
      OutcomeOfInit(read, init, lines, j);
    }
    if i < |init| {
      OutcomeOfInit(read, init, lines, i);
      FailsOnFirstBadLine(read, init, i);
      FailedStays(read, init, lines);
    } else {
      assert i == |init|;
      FailsOnBadLine(read, init);
      LastTurn(read, init, lines);
    }
  }

  /** Once the loop has failed, later lines change nothing. */
  lemma FailedStays(read: LineReader, init: seq<string>, lines: seq<string>)
    requires IsInit(init, lines) && Run(read, init).Err?
    ensures Run(read, lines) == Run(read, init)
  {
    assert lines[..|lines| - 1] == init;
  }

  /** Line `i` stores an entry, and no later line stores under the same key. */
  predicate LastToStore(read: LineReader, lines: seq<string>, i: nat)
    requires i < |lines|
  {
    && EntryAt(read, lines, i).Some?
    && forall j :: i < j < |lines| ==>
         EntryAt(read, lines, j).None? || EntryAt(read, lines, j).value.0 != EntryAt(read, lines, i).value.0
  }

  /** Some line stores an entry under `k`. */
  predicate Stored(read: LineReader, lines: seq<string>, k: string) {
    exists i :: 0 <= i < |lines| && EntryAt(read, lines, i).Some? && EntryAt(read, lines, i).value.0 == k
  }

  /**
   * A key is in the result exactly when some line stores under it: a line
   * that defines nothing adds nothing.
   */
  lemma {:induction false} KeysAreStored(read: LineReader, lines: seq<string>)
    requires Directories(read, lines).Ok?
    ensures forall k :: k in Directories(read, lines).value <==> Stored(read, lines, k)
    decreases |lines|
  {
    if lines != [] {
      var init := lines[..|lines| - 1];
      assert Run(read, init).Ok?;
      KeysAreStored(read, init);
      LastTurn(read, init, lines);
      forall k ensures Stored(read, lines, k) <==> Stored(read, init, k) || StoredLast(read, lines, k) {
        StoredOfInit(read, init, lines, k);
      }
    }
  }

  /** The last line stores under `k`. */
  predicate StoredLast(read: LineReader, lines: seq<string>, k: string) {
    lines != [] && EntryAt(read, lines, |lines| - 1).Some? && EntryAt(read, lines, |lines| - 1).value.0 == k
  }

  lemma StoredOfInit(read: LineReader, init: seq<string>, lines: seq<string>, k: string)
    requires IsInit(init, lines)
    ensures Stored(read, lines, k) <==> Stored(read, init, k) || StoredLast(read, lines, k)
  {
    if Stored(read, init, k) {
      StoredStays(read, init, lines, k);
    }
    if Stored(read, lines, k) {
      StoredBefore(read, init, lines, k);
    }
  }

  lemma StoredStays(read: LineReader, init: seq<string>, lines: seq<string>, k: string)
    requires IsInit(init, lines) && Stored(read, init, k)
    ensures Stored(read, lines, k)
  {
    var i :| 0 <= i < |init| && EntryAt(read, init, i).Some? && EntryAt(read, init, i).value.0 == k;
    OutcomeOfInit(read, init, lines, i);
  }

  lemma StoredBefore(read: LineReader, init: seq<string>, lines: seq<string>, k: string)
    requires IsInit(init, lines) && Stored(read, lines, k)
    ensures Stored(read, init, k) || StoredLast(read, lines, k)
  {
    var i :| 0 <= i < |lines| && EntryAt(read, lines, i).Some? && EntryAt(read, lines, i).value.0 == k;
    if i == |init| {
      assert StoredLast(read, lines, k);
    } else {
      StoredEarlier(read, init, lines, k, i);
    }
  }

  lemma StoredEarlier(read: LineReader, init: seq<string>, lines: seq<string>, k: string, i: nat)
    requires IsInit(init, lines) && i < |init|
    requires EntryAt(read, lines, i).Some? && EntryAt(read, lines, i).value.0 == k
    ensures Stored(read, init, k)
  {
    OutcomeOfInit(read, init, lines, i);
    assert EntryAt(read, init, i).Some? && EntryAt(read, init, i).value.0 == k;
  }

  /** Each key holds the URL of the last line that stores under it: later lines overwrite. */
  lemma {:induction false} LastWriteWins(read: LineReader, lines: seq<string>, i: nat)
    requires Directories(read, lines).Ok?
    requires i < |lines| && LastToStore(read, lines, i)
    ensures var m, e := Directories(read, lines).value, EntryAt(read, lines, i).value;
      e.0 in m && m[e.0] == e.1
    decreases |lines|, 1
  {
    var init := lines[..|lines| - 1];
    if i < |init| {
      EarlierWins(read, init, lines, i);
    } else {
      assert i == |init|;
      DirectoriesStep(read, init, lines);
      StoredByStep(Directories(read, init).value, Directories(read, lines).value, EntryAt(read, lines, i));
    }
  }

  /** A store puts its URL under its key. */
  lemma StoredByStep(m0: map<string, string>, m: map<string, string>, last: Option<(string, string)>)
    requires m == StoreEntry(m0, last) && last.Some?
    ensures last.value.0 in m && m[last.value.0] == last.value.1
  {
  }

  lemma {:induction false} EarlierWins(read: LineReader, init: seq<string>, lines: seq<string>, i: nat)
    requires IsInit(init, lines) && Directories(read, lines).Ok?
    requires i < |init| && LastToStore(read, lines, i)
    ensures var m, e := Directories(read, lines).value, EntryAt(read, lines, i).value;
      e.0 in m && m[e.0] == e.1
    decreases |lines|, 0
  {
    DirectoriesStep(read, init, lines);
    LastToStoreOfInit(read, init, lines, i);
    LastWriteWins(read, init, i);
    var e := EntryAt(read, lines, i).value;
    KeptByStep(Directories(read, init).value, Directories(read, lines).value, EntryAt(read, lines, |init|), e.0, e.1);
  }

  function StoreEntry(m: map<string, string>, entry: Option<(string, string)>): map<string, string> {
    if entry.Some? then m[entry.value.0 := entry.value.1] else m
  }

  lemma DirectoriesStep(read: LineReader, init: seq<string>, lines: seq<string>)
    requires IsInit(init, lines) && Directories(read, lines).Ok?
    ensures Directories(read, init).Ok?
    ensures Directories(read, lines).value == StoreEntry(Directories(read, init).value, EntryAt(read, lines, |init|))
  {
    assert Run(read, init).Ok?;
    LastTurn(read, init, lines);
  }

  /** A store under another key leaves `key` as it was. */
  lemma KeptByStep(m0: map<string, string>, m: map<string, string>, last: Option<(string, string)>, key: string, url: string)
    requires m == StoreEntry(m0, last)
    requires key in m0 && m0[key] == url
    requires last.None? || last.value.0 != key
    ensures key in m && m[key] == url
  {
  }

  lemma LastToStoreOfInit(read: LineReader, init: seq<string>, lines: seq<string>, i: nat)
    requires IsInit(init, lines) && i < |init| && LastToStore(read, lines, i)
    ensures LastToStore(read, init, i)
    ensures EntryAt(read, init, i) == EntryAt(read, lines, i)
    ensures EntryAt(read, lines, |init|).None? || EntryAt(read, lines, |init|).value.0 != EntryAt(read, lines, i).value.0
  {
    OutcomesOfInit(read, init, lines);
  }

  /** The turn of the loop over line `i`, with the header already taken off. */
  lemma Turn(repo: Repository, lines: seq<string>, i: nat, s: State, dir: Option<string>, line: string,
             entry: Result<Option<External>, Error>)
    requires i < |lines| && Run(Reader(repo), lines[..i]) == Ok(s)
    requires dir == (if SplitHeader(lines[i]).0.Some? then SplitHeader(lines[i]).0 else s.currentDir)
    requires line == (if SplitHeader(lines[i]).0.Some? then SplitHeader(lines[i]).1 else lines[i])
    requires entry == ParseLine(repo, line, dir)
    ensures entry.Err? ==> Run(Reader(repo), lines[..i + 1]) == Err(entry.error)
    ensures entry.Ok? && entry.value.None? ==> Run(Reader(repo), lines[..i + 1]) == Ok(State(dir, s.directories))
    ensures entry.Ok? && entry.value.Some? ==>
      Run(Reader(repo), lines[..i + 1]) == Ok(State(dir, s.directories[Key(dir, entry.value.value.directory) := entry.value.value.url]))
  {
    RunStep(Reader(repo), lines, i, s);
    assert entry == Reader(repo)(line, dir);
    StepIs(Reader(repo), s, lines[i], dir, line, entry);
  }

  /** `parse(lines)`: the externals of the listing, by key. */
  method Parse(repo: Repository, input: Input) returns (r: Result<map<string, string>, Error>)
    ensures r == Directories(Reader(repo), LinesOf(input))
  {
    var lines := LinesOf(input);
    var directories: map<string, string> := map[];
    var currentDir: Option<string> := None;
    var i := 0;
    assert lines[..i] == [];
    while i < |lines|
      invariant 0 <= i <= |lines|
      invariant Run(Reader(repo), lines[..i]) == Ok(State(currentDir, directories))
    {
      ghost var before := State(currentDir, directories);
      var line := lines[i];
      var (header, rest) := SplitHeader(line);
      if header.Some? {
        currentDir := header;
        line := rest;
      }
      var entry := ParseLine(repo, line, currentDir);
      Turn(repo, lines, i, before, currentDir, line, entry);
      if entry.Err? {
        RunToError(Reader(repo), lines, i + 1, entry.error);
        return Err(entry.error);
      }
      if entry.value.Some? {
        directories := directories[Key(currentDir, entry.value.value.directory) := entry.value.value.url];
      }
      assert Run(Reader(repo), lines[..i + 1]) == Ok(State(currentDir, directories));
      i := i + 1;
    }
    RunToEnd(Reader(repo), lines, i, State(currentDir, directories));
    return Ok(directories);
  }
}
