/**
 * The parts of Ruby's URI library that the externals parser relies on:
 * the scheme of a string (`URI.parse(s).scheme`), the `scheme://authority`
 * prefix of a URL, and `URI.join`, given here by reference resolution as
 * section 5.2.2 of RFC 3986 describes it, with the merging of paths of
 * section 5.2.3 and the removal of dot segments of section 5.2.4.
 *
 * A reference is cut into scheme, authority and path; the query and the
 * fragment are not told apart from the path.
 */
module Uri {
  import opened Wrappers
  import Strings

  predicate IsAlpha(c: char) { 'a' <= c <= 'z' || 'A' <= c <= 'Z' }

  predicate IsDigit(c: char) { '0' <= c <= '9' }

  predicate IsSchemeChar(c: char) {
    IsAlpha(c) || IsDigit(c) || c == '+' || c == '-' || c == '.'
  }

  /** scheme = ALPHA *( ALPHA / DIGIT / "+" / "-" / "." ), section 3.1 of RFC 3986. */
  predicate IsSchemeName(s: string) {
    s != [] && IsAlpha(s[0]) && forall i :: 0 < i < |s| ==> IsSchemeChar(s[i])
  }

  /** The length of the longest prefix of `s` made of scheme characters. */
  function SchemeRun(s: string): (n: nat)
    ensures n <= |s|
    ensures forall i :: 0 <= i < n ==> IsSchemeChar(s[i])
    ensures n < |s| ==> !IsSchemeChar(s[n])
  {
    if s != [] && IsSchemeChar(s[0]) then 1 + SchemeRun(s[1..]) else 0
  }

  /**
   * The scheme `s` starts with: a scheme name followed by ':'. There is at
   * most one, and it is found whenever there is one.
   */
  function Scheme(s: string): (r: Option<string>)
    ensures r.Some? ==> IsSchemeName(r.value) && |r.value| < |s| && s[..|r.value|] == r.value && s[|r.value|] == ':'
    ensures forall k :: 0 < k < |s| && IsSchemeName(s[..k]) && s[k] == ':' ==> r == Some(s[..k])
  {
    var n := SchemeRun(s);
    if 0 < n < |s| && IsAlpha(s[0]) && s[n] == ':' then Some(s[..n]) else None
  }

  predicate HasScheme(s: string) {
    Scheme(s).Some?
  }

  lemma SchemeOfPrefixed(scheme: string, rest: string)
    requires IsSchemeName(scheme)
    ensures Scheme(scheme + ":" + rest) == Some(scheme)
  {
    var s := scheme + ":" + rest;
    assert s[..|scheme|] == scheme && s[|scheme|] == ':';
  }

  // ----- references -----

  /** A URI reference cut into its parts (section 3 of RFC 3986). */
  datatype Reference = Reference(scheme: Option<string>, authority: Option<string>, path: string)

  /** Section 5.3 of RFC 3986: the parts put back together. */
  function Recompose(r: Reference): string {
    (if r.scheme.Some? then r.scheme.value + ":" else [])
    + (if r.authority.Some? then "//" + r.authority.value else [])
    + r.path
  }

  /** What follows the scheme: `//` and an authority up to the next '/', then the path. */
  function HierPart(s: string): (r: (Option<string>, string))
  {
    if "//" <= s then
      match Strings.IndexOf(s[2..], '/')
      case Some(j) => (Some(s[2..][..j]), s[2..][j..])
      case None => (Some(s[2..]), [])
    else (None, s)
  }

  /** The parts that a reference can be put back together from. */
  predicate WellFormed(r: Reference) {
    && (r.scheme.Some? ==> IsSchemeName(r.scheme.value))
    && (r.authority.Some? ==> '/' !in r.authority.value && (r.path == [] || r.path[0] == '/'))
    && (r.authority.None? ==> !("//" <= r.path))
    && (r.scheme.None? && r.authority.None? ==> Scheme(r.path).None?)
  }

  /** `URI.parse(s)`: cutting `s` loses nothing, and the parts are well formed. */
  function Parse(s: string): (r: Reference)
    ensures WellFormed(r)
    ensures Recompose(r) == s
  {
    match Scheme(s)
    case Some(scheme) =>
      var rest := s[|scheme| + 1..];
      assert s == scheme + ":" + rest;
      SchemedParts(scheme, rest);
      var (authority, path) := HierPart(rest);
      Reference(Some(scheme), authority, path)
    case None =>
      UnschemedParts(s);
      var (authority, path) := HierPart(s);
      Reference(None, authority, path)
  }

  lemma SchemedParts(scheme: string, rest: string)
    requires IsSchemeName(scheme)
    ensures var r := Reference(Some(scheme), HierPart(rest).0, HierPart(rest).1);
      WellFormed(r) && Recompose(r) == scheme + ":" + rest
  {
    HierPartRecompose(rest);
    var (authority, path) := HierPart(rest);
    var b := if authority.Some? then "//" + authority.value else [];
    assert scheme + ":" + b + path == scheme + ":" + (b + path);
  }

  lemma UnschemedParts(s: string)
    requires Scheme(s).None?
    ensures var r := Reference(None, HierPart(s).0, HierPart(s).1);
      WellFormed(r) && Recompose(r) == s
  {
    HierPartRecompose(s);
    var (authority, path) := HierPart(s);
    RecomposeUnschemed(authority, path);
    if authority.None? {
      assert path == s;
    }
  }

  lemma RecomposeUnschemed(authority: Option<string>, path: string)
    ensures Recompose(Reference(None, authority, path)) == (if authority.Some? then "//" + authority.value else []) + path
  {
    var b := if authority.Some? then "//" + authority.value else [];
    assert [] + b + path == b + path;
  }

  lemma HierPartRecompose(s: string)
    ensures var (authority, path) := HierPart(s);
      && (if authority.Some? then "//" + authority.value else []) + path == s
      && (authority.Some? ==> '/' !in authority.value && (path == [] || path[0] == '/'))
      && (authority.None? ==> path == s && !("//" <= s))
  {
    if "//" <= s {
      AuthorityParts(s);
    }
  }

  /** After `//`, the authority runs up to the next '/', where the path starts. */
  lemma AuthorityParts(s: string)
    requires "//" <= s
    ensures var (authority, path) := HierPart(s);
      && authority.Some? && "//" + authority.value + path == s
      && '/' !in authority.value && (path == [] || path[0] == '/')
  {
    var t := s[2..];
    assert s == "//" + t;
    match Strings.IndexOf(t, '/')
    case Some(j) =>
      assert t == t[..j] + t[j..];
      assert "//" + t[..j] + t[j..] == "//" + t;
    case None =>
      assert "//" + t + [] == "//" + t;
  }

  /** Putting well-formed parts together and cutting the result gives the parts back. */
  lemma ParseRecompose(r: Reference)
    requires WellFormed(r)
    ensures Parse(Recompose(r)) == r
  {
    HierPartOf(r.authority, r.path);
    if r.scheme.Some? {
      RecomposeSchemed(r);
      ParseSchemed(r.scheme.value, (if r.authority.Some? then "//" + r.authority.value else []) + r.path);
    } else {
      ParseUnschemed(r);
    }
  }

  lemma RecomposeSchemed(r: Reference)
    requires r.scheme.Some?
    ensures Recompose(r) == r.scheme.value + ":" + ((if r.authority.Some? then "//" + r.authority.value else []) + r.path)
  {
    var b := if r.authority.Some? then "//" + r.authority.value else [];
    assert r.scheme.value + ":" + b + r.path == r.scheme.value + ":" + (b + r.path);
  }

  lemma ParseUnschemed(r: Reference)
    requires WellFormed(r) && r.scheme.None?
    requires HierPart((if r.authority.Some? then "//" + r.authority.value else []) + r.path) == (r.authority, r.path)
    ensures Parse(Recompose(r)) == r
  {
    var hier := (if r.authority.Some? then "//" + r.authority.value else []) + r.path;
    RecomposeUnschemed(r.authority, r.path);
    if r.authority.Some? {
      SlashNoScheme(hier);
    }
  }

  /** Text starting with '/' carries no scheme. */
  lemma SlashNoScheme(s: string)
    requires s != [] && s[0] == '/'
    ensures Scheme(s).None?
  {
  }

  lemma ParseSchemed(scheme: string, hier: string)
    requires IsSchemeName(scheme)
    ensures Parse(scheme + ":" + hier) == Reference(Some(scheme), HierPart(hier).0, HierPart(hier).1)
  {
    var s := scheme + ":" + hier;
    SchemeOfPrefixed(scheme, hier);
    assert s[|scheme| + 1..] == hier;
  }

  lemma HierPartOf(authority: Option<string>, path: string)
    requires authority.Some? ==> '/' !in authority.value && (path == [] || path[0] == '/')
    requires authority.None? ==> !("//" <= path)
    ensures HierPart((if authority.Some? then "//" + authority.value else []) + path) == (authority, path)
  {
    if authority.Some? {
      var a := authority.value;
      var s := "//" + a + path;
      assert "//" <= s && s[2..] == a + path;
      if path == [] {
        assert a + path == a;
      } else {
        var ap := a + path;
        assert ap[..|a|] == a && ap[|a|..] == path;
        assert ap[|a|] == '/' && '/' in ap;
        assert forall i :: 0 <= i < |a| ==> ap[i] == a[i];
        assert Strings.IndexOf(ap, '/') == Some(|a|);
      }
    } else {
      assert [] + path == path;
    }
  }

  /**
   * The `scheme://server` prefix of `s`, when it has one: a scheme, `//` and
   * a non-empty authority, followed by the path, which is empty or starts
   * with '/'.
   */
  function Origin(s: string): (r: Option<string>)
    ensures r.Some? <==> HasScheme(s) && Parse(s).authority.Some? && Parse(s).authority.value != []
    ensures r.Some? ==> var a := Parse(s).authority.value;
      && r.value == Scheme(s).value + "://" + a
      && '/' !in a
      && r.value + Parse(s).path == s
      && (Parse(s).path == [] || Parse(s).path[0] == '/')
  {
    var b := Parse(s);
    if b.scheme.Some? && b.authority.Some? && b.authority.value != [] then
      RecomposeServer(b.scheme.value, b.authority.value, b.path);
      Some(b.scheme.value + "://" + b.authority.value)
    else None
  }

  /** A path put after the `scheme://authority` of a reference is read back as the path. */
  lemma OriginPath(b: Reference, path: string)
    requires WellFormed(b) && b.scheme.Some? && b.authority.Some?
    requires path == [] || path[0] == '/'
    ensures Parse(b.scheme.value + "://" + b.authority.value + path) == Reference(b.scheme, b.authority, path)
  {
    var r := Reference(b.scheme, b.authority, path);
    RecomposeServer(b.scheme.value, b.authority.value, path);
    ParseRecompose(r);
  }

  /** A path put after the origin of a URL is read back as the path, on the same origin. */
  lemma OriginThenPath(s: string, path: string)
    requires Origin(s).Some?
    requires path == [] || path[0] == '/'
    ensures Parse(Origin(s).value + path) == Reference(Parse(s).scheme, Parse(s).authority, path)
    ensures Origin(Origin(s).value + path) == Origin(s)
  {
    OriginPath(Parse(s), path);
  }

  // ----- paths -----

  /** The end of the first segment of `p`: past its leading '/', up to the next '/'. */
  function SegmentEnd(p: string): (n: nat)
    requires p != []
    ensures 0 < n <= |p|
    ensures '/' !in p[1..n]
    ensures n < |p| ==> p[n] == '/'
  {
    match Strings.IndexOf(p[1..], '/')
    case Some(j) => j + 1
    case None => |p|
  }

  /** Segment text that dot-segment removal keeps as it is. */
  predicate IsSegmentText(s: string) {
    '/' !in s && s != "." && s != ".."
  }

  /** `/` followed by kept segment text: one element of the output buffer of section 5.2.4. */
  predicate IsSegment(x: string) {
    x != [] && x[0] == '/' && IsSegmentText(x[1..])
  }

  /** Every element is a kept segment: the output buffer holds nothing else. */
  predicate AllSegments(xs: seq<string>) {
    forall i :: 0 <= i < |xs| ==> IsSegment(xs[i])
  }

  function DropLast(xs: seq<string>): seq<string> {
    if xs == [] then [] else xs[..|xs| - 1]
  }

  /**
   * The loop of section 5.2.4 of RFC 3986. `output` is the output buffer kept
   * as the list of segments moved into it, so that "remove the last segment
   * and its preceding '/'" drops the last element.
   */
  function RemoveDots(input: string, output: seq<string>): seq<string>
    decreases |input|
  {
    if input == [] then output
    // A: a leading "../" or "./" goes
    else if "../" <= input then RemoveDots(input[3..], output)
    else if "./" <= input then RemoveDots(input[2..], output)
    // B: "/./" and a final "/." become "/"
    else if "/./" <= input then RemoveDots(input[2..], output)
    else if input == "/." then RemoveDots("/", output)
    // C: "/../" and a final "/.." become "/" and take the last output segment with them
    else if "/../" <= input then RemoveDots(input[3..], DropLast(output))
    else if input == "/.." then RemoveDots("/", DropLast(output))
    // D: a lone "." or ".." goes
    else if input == "." || input == ".." then output
    // E: the first segment moves to the output
    else
      var n := SegmentEnd(input);
      RemoveDots(input[n..], output + [input[..n]])
  }

  /**
   * remove_dot_segments, section 5.2.4 of RFC 3986. An absolute path stays
   * absolute, and one naming a directory (a final '/') still does.
   */
  function RemoveDotSegments(path: string): (r: string)
    ensures path != [] && path[0] == '/' ==> r != [] && r[0] == '/'
    ensures path != [] && path[0] == '/' && path[|path| - 1] == '/' ==> r != [] && r[|r| - 1] == '/'
  {
    var xs := RemoveDots(path, []);
    if path != [] && path[0] == '/' then
      RemoveDotsAbsolute(path, []);
      ConcatOfSegments(xs);
      if path[|path| - 1] == '/' then
        RemoveDotsDirectory(path, []);
        ConcatLast(xs);
        Strings.Concat(xs)
      else Strings.Concat(xs)
    else Strings.Concat(xs)
  }

  /** Segments whose last ends with '/': put together, they end with '/'. */
  lemma ConcatLast(xs: seq<string>)
    requires xs != [] && xs[|xs| - 1] != [] && xs[|xs| - 1][|xs[|xs| - 1]| - 1] == '/'
    ensures var c := Strings.Concat(xs); c != [] && c[|c| - 1] == '/'
  {
    var front, last := xs[..|xs| - 1], xs[|xs| - 1];
    assert xs == front + [last];
    Strings.ConcatSnoc(front, last);
  }

  /**
   * On an absolute path ending with '/', the last segment the loop moves
   * ends with '/'.
   */
  lemma {:induction false} RemoveDotsDirectory(input: string, output: seq<string>)
    requires input != [] && input[0] == '/' && input[|input| - 1] == '/'
    ensures var r := RemoveDots(input, output);
      r != [] && r[|r| - 1] != [] && r[|r| - 1][|r[|r| - 1]| - 1] == '/'
    decreases |input|
  {
    assert input != "/." && input != "/..";
    if "/./" <= input {
      RemoveDotsDirectory(input[2..], output);
    } else if "/../" <= input {
      RemoveDotsDirectory(input[3..], DropLast(output));
    } else {
      var n := SegmentEnd(input);
      if n < |input| {
        RemoveDotsDirectory(input[n..], output + [input[..n]]);
      } else {
        assert input[..n] == input;
      }
    }
  }

  lemma FirstSegmentKept(input: string)
    requires input != [] && input[0] == '/'
    requires !("/./" <= input) && input != "/." && !("/../" <= input) && input != "/.."
    ensures IsSegment(input[..SegmentEnd(input)])
  {
    var n := SegmentEnd(input);
    var x := input[..n];
    assert x[1..] == input[1..n];
    if n < |input| {
      assert n == 2 ==> input[..3] == ['/', input[1], '/'];
      assert n == 3 ==> input[..4] == ['/', input[1], input[2], '/'];
    } else {
      assert n == 2 ==> input == ['/', input[1]];
      assert n == 3 ==> input == ['/', input[1], input[2]];
    }
  }

  /** On an absolute path the loop moves only kept segments, and moves at least one. */
  lemma {:induction false} RemoveDotsAbsolute(input: string, output: seq<string>)
    requires input == [] || input[0] == '/'
    requires AllSegments(output)
    ensures var r := RemoveDots(input, output);
      && AllSegments(r)
      && (input != [] ==> r != [])
    decreases |input|
  {
    if input == [] {
    } else if "/./" <= input {
      RemoveDotsAbsolute(input[2..], output);
    } else if input == "/." {
      RemoveDotsAbsolute("/", output);
    } else if "/../" <= input {
      RemoveDotsAbsolute(input[3..], DropLast(output));
    } else if input == "/.." {
      RemoveDotsAbsolute("/", DropLast(output));
    } else {
      var n := SegmentEnd(input);
      FirstSegmentKept(input);
      RemoveDotsAbsolute(input[n..], output + [input[..n]]);
    }
  }

  /** Kept segments put together: empty, or starting with '/'. */
  lemma ConcatOfSegments(xs: seq<string>)
    requires AllSegments(xs)
    ensures var p := Strings.Concat(xs); p == [] || p[0] == '/'
    ensures xs != [] ==> Strings.Concat(xs) == xs[0] + Strings.Concat(xs[1..])
  {
    if xs != [] {
      assert IsSegment(xs[0]);
    }
  }

  /**
   * Dot-segment removal of an absolute path gives an absolute path made of
   * kept segments only: no "." or ".." is left in it.
   */
  lemma RemoveDotSegmentsAbsolute(path: string)
    requires path != [] && path[0] == '/'
    ensures AllSegments(RemoveDots(path, []))
    ensures var r := RemoveDotSegments(path); r != [] && r[0] == '/'
  {
    var xs := RemoveDots(path, []);
    RemoveDotsAbsolute(path, []);
    assert IsSegment(xs[0]);
    ConcatOfSegments(xs);
  }

  lemma SegmentEndAt(x: string, rest: string)
    requires IsSegment(x)
    requires rest == [] || rest[0] == '/'
    ensures SegmentEnd(x + rest) == |x|
  {
    var p := x + rest;
    assert p[1..|x|] == x[1..];
    assert forall i :: 1 <= i < |x| ==> p[i] == x[i] && x[i] in x[1..];
    assert p != [] && p[1..] == x[1..] + rest;
    assert rest != [] ==> p[|x|] == '/';
  }

  /** The loop walks through kept segments one by one, moving each to the output. */
  lemma {:induction false} RemoveDotsThrough(xs: seq<string>, q: string, output: seq<string>)
    requires AllSegments(xs)
    requires q == [] || q[0] == '/'
    ensures RemoveDots(Strings.Concat(xs) + q, output) == RemoveDots(q, output + xs)
    decreases |xs|
  {
    if xs == [] {
      assert Strings.Concat(xs) + q == q && output + xs == output;
    } else {
      TailSegments(xs);
      FrontSegment(xs, q);
      RemoveDotsThrough(xs[1..], q, output + [xs[0]]);
      ThroughStep(xs, q, output, Strings.Concat(xs) + q, Strings.Concat(xs[1..]) + q);
    }
  }

  lemma TailSegments(xs: seq<string>)
    requires xs != [] && AllSegments(xs)
    ensures IsSegment(xs[0]) && AllSegments(xs[1..])
  {
    forall i | 0 <= i < |xs[1..]| ensures IsSegment(xs[1..][i]) {
      assert xs[1..][i] == xs[i + 1];
    }
  }

  /** Kept segments followed by an absolute remainder: the first segment, then an absolute rest. */
  lemma FrontSegment(xs: seq<string>, q: string)
    requires xs != [] && AllSegments(xs)
    requires q == [] || q[0] == '/'
    ensures var rest := Strings.Concat(xs[1..]) + q;
      && (rest == [] || rest[0] == '/')
      && Strings.Concat(xs) + q == xs[0] + rest
  {
    TailSegments(xs);
    ConcatOfSegments(xs[1..]);
    ConcatFront(xs, q);
  }

  lemma ConcatFront(xs: seq<string>, q: string)
    requires xs != []
    ensures Strings.Concat(xs) + q == xs[0] + (Strings.Concat(xs[1..]) + q)
  {
    var more := Strings.Concat(xs[1..]);
    assert Strings.Concat(xs) == xs[0] + more;
    assert xs[0] + more + q == xs[0] + (more + q);
  }

  lemma ThroughStep(xs: seq<string>, q: string, output: seq<string>, input: string, rest: string)
    requires xs != [] && IsSegment(xs[0])
    requires rest == [] || rest[0] == '/'
    requires input == xs[0] + rest
    requires RemoveDots(rest, output + [xs[0]]) == RemoveDots(q, output + [xs[0]] + xs[1..])
    ensures RemoveDots(input, output) == RemoveDots(q, output + xs)
  {
    RemoveDotsMove(xs[0], rest, output);
    MoveFront(output, xs);
  }

  lemma MoveFront(output: seq<string>, xs: seq<string>)
    requires xs != []
    ensures output + [xs[0]] + xs[1..] == output + xs
  {
  }

  /** A kept segment at the front of the input moves to the output unchanged. */
  lemma RemoveDotsMove(x: string, rest: string, output: seq<string>)
    requires IsSegment(x)
    requires rest == [] || rest[0] == '/'
    ensures RemoveDots(x + rest, output) == RemoveDots(rest, output + [x])
  {
    var input := x + rest;
    NotDotPrefix(x, rest);
    SegmentEndAt(x, rest);
    assert input[..|x|] == x && input[|x|..] == rest;
  }

  lemma NotDotPrefix(x: string, rest: string)
    requires IsSegment(x)
    requires rest == [] || rest[0] == '/'
    ensures var input := x + rest;
      && !("../" <= input) && !("./" <= input)
      && !("/./" <= input) && input != "/."
      && !("/../" <= input) && input != "/.."
      && input != "." && input != ".."
  {
    var input := x + rest;
    assert input[0] == '/';
    if |x| >= 2 { assert input[1] == x[1]; }
    if |x| >= 3 { assert input[2] == x[2] && x[2] in x[1..]; }
    if |x| >= 4 { assert input[3] == x[3] && x[3] in x[1..]; }
    if rest == [] { assert input == x; }
    if |x| == 1 && rest != [] { assert input[1] == '/'; }
    if |x| == 2 {
      assert x[1..] == [x[1]];
      if rest != [] { assert input[2] == '/'; }
    }
    if |x| == 3 {
      assert x[1..] == [x[1], x[2]];
      if rest != [] { assert input[3] == '/'; }
    }
  }

  /** A path made of kept segments only is left as it is. */
  lemma RemoveDotSegmentsOfSegments(xs: seq<string>)
    requires AllSegments(xs)
    ensures RemoveDotSegments(Strings.Concat(xs)) == Strings.Concat(xs)
  {
    RemoveDotsThrough(xs, [], []);
    assert Strings.Concat(xs) + [] == Strings.Concat(xs) && [] + xs == xs;
  }

  /** Dot-segment removal is idempotent. */
  lemma RemoveDotSegmentsIdempotent(path: string)
    requires path != [] && path[0] == '/'
    ensures RemoveDotSegments(RemoveDotSegments(path)) == RemoveDotSegments(path)
  {
    RemoveDotSegmentsAbsolute(path);
    RemoveDotSegmentsOfSegments(RemoveDots(path, []));
  }

  // ----- authorities -----

  /** An authority cut into `userinfo@`, host and `:port` (section 3.2 of RFC 3986). */
  datatype Server = Server(userinfo: Option<string>, host: string, port: Option<string>)

  /** A port as written: one digit or more. */
  predicate IsPort(p: string) {
    p != [] && forall i :: 0 <= i < |p| ==> IsDigit(p[i])
  }

  function UserText(u: Option<string>): string {
    if u.Some? then u.value + "@" else []
  }

  function PortText(p: Option<string>): string {
    if p.Some? then ":" + p.value else []
  }

  /** The parts put back together. */
  function ServerText(s: Server): string {
    UserText(s.userinfo) + s.host + PortText(s.port)
  }

  /** The number of digits that end `s`. */
  function TrailingDigits(s: string): (n: nat)
    ensures n <= |s|
    ensures forall i :: |s| - n <= i < |s| ==> IsDigit(s[i])
    ensures n < |s| ==> !IsDigit(s[|s| - n - 1])
  {
    if s != [] && IsDigit(s[|s| - 1]) then
      var n := TrailingDigits(s[..|s| - 1]);
      assert forall i :: |s| - 1 - n <= i < |s| - 1 ==> s[i] == s[..|s| - 1][i];
      1 + n
    else 0
  }

  /** `s` ends with ':' and digits, possibly none: the place of a port. */
  predicate EndsWithPort(s: string) {
    TrailingDigits(s) < |s| && s[|s| - TrailingDigits(s) - 1] == ':'
  }

  /** The userinfo before the first '@', if any, and the rest. */
  function SplitUserinfo(a: string): (r: (Option<string>, string))
    ensures r.0.Some? ==> '@' !in r.0.value
    ensures r.0.None? ==> '@' !in r.1
    ensures UserText(r.0) + r.1 == a
  {
    match Strings.IndexOf(a, '@')
    case Some(i) =>
      assert a == a[..i] + "@" + a[i + 1..];
      (Some(a[..i]), a[i + 1..])
    case None => (None, a)
  }

  /** The host and the digits after a final ':'; with no digits there, no port. */
  function SplitPort(hostPort: string): (r: (string, Option<string>))
    ensures r.1.Some? ==> IsPort(r.1.value)
    ensures r.0 + PortText(r.1) == hostPort || (r.1.None? && r.0 + ":" == hostPort)
  {
    if EndsWithPort(hostPort) then
      var n := TrailingDigits(hostPort);
      var host := hostPort[..|hostPort| - n - 1];
      var port := hostPort[|hostPort| - n..];
      assert hostPort == host + ":" + port;
      (host, if n == 0 then None else Some(port))
    else (hostPort, None)
  }

  /**
   * The parts of an authority: the userinfo is what comes before the first
   * '@', and the port is the digits after a final ':'. An empty port counts
   * as none, so only that ':' may be lost when the parts are put back
   * together.
   */
  function ServerOf(a: string): (s: Server)
    ensures s.userinfo.Some? ==> '@' !in s.userinfo.value
    ensures s.port.Some? ==> IsPort(s.port.value)
    ensures ServerText(s) == a || (s.port.None? && ServerText(s) + ":" == a)
  {
    var (userinfo, hostPort) := SplitUserinfo(a);
    var (host, port) := SplitPort(hostPort);
    var s := Server(userinfo, host, port);
    if host + PortText(port) == hostPort then
      Strings.Assoc(UserText(userinfo), host, PortText(port));
      assert ServerText(s) == a;
      s
    else
      Strings.Assoc(UserText(userinfo), host, ":");
      assert port.None? && ServerText(s) + ":" == a;
      s
  }

  /** Parts that `ServerOf` gives back unchanged. */
  predicate IsServer(s: Server) {
    && (s.userinfo.Some? ==> '@' !in s.userinfo.value)
    && (s.userinfo.None? ==> '@' !in s.host)
    && (s.port.Some? ==> IsPort(s.port.value))
    && (s.port.None? ==> !EndsWithPort(s.host))
  }

  /** Cutting the text of well-formed parts gives the parts back. */
  lemma ServerRoundTrip(s: Server)
    requires IsServer(s)
    ensures ServerOf(ServerText(s)) == s
  {
    var hostPort := s.host + PortText(s.port);
    Strings.Assoc(UserText(s.userinfo), s.host, PortText(s.port));
    UserinfoRoundTrip(s.userinfo, hostPort);
    PortRoundTrip(s.host, s.port);
  }

  lemma UserinfoRoundTrip(u: Option<string>, rest: string)
    requires u.Some? ==> '@' !in u.value
    requires u.None? ==> '@' !in rest
    ensures SplitUserinfo(UserText(u) + rest) == (u, rest)
  {
    var a := UserText(u) + rest;
    if u.Some? {
      var x := u.value;
      assert a == x + "@" + rest;
      assert a[..|x|] == x && a[|x|] == '@';
      Strings.IndexOfFirst(a, '@', |x|);
      assert a[|x| + 1..] == rest;
    } else {
      assert a == rest;
    }
  }

  lemma PortRoundTrip(host: string, p: Option<string>)
    requires p.Some? ==> IsPort(p.value)
    requires p.None? ==> !EndsWithPort(host)
    ensures SplitPort(host + PortText(p)) == (host, p)
  {
    if p.Some? {
      var t := host + ":" + p.value;
      assert host + PortText(p) == t;
      TrailingPort(host, p.value);
      assert t[|t| - |p.value| - 1] == ':';
      assert EndsWithPort(t);
      assert t[..|host|] == host && t[|t| - |p.value|..] == p.value;
    } else {
      assert host + PortText(p) == host;
    }
  }

  /** After ':' and a port, the trailing digits are the port. */
  lemma {:induction false} TrailingPort(host: string, port: string)
    requires forall i :: 0 <= i < |port| ==> IsDigit(port[i])
    ensures TrailingDigits(host + ":" + port) == |port|
    decreases |port|
  {
    var t := host + ":" + port;
    if port == [] {
      assert t[|t| - 1] == ':';
    } else {
      assert t[..|t| - 1] == host + ":" + port[..|port| - 1];
      TrailingPort(host, port[..|port| - 1]);
    }
  }

  /**
   * `URI#merge` with a reference that has an authority: the reference's
   * host replaces the base's, and its userinfo and its port replace the
   * base's only when it has them.
   */
  function MergedServer(base: Option<string>, ref: string): Server {
    var b := if base.Some? then ServerOf(base.value) else Server(None, [], None);
    var s := ServerOf(ref);
    Server(if s.userinfo.Some? then s.userinfo else b.userinfo, s.host, if s.port.Some? then s.port else b.port)
  }

  // ----- resolution -----

  /** The length of `p` up to and including its last '/', 0 when it has none. */
  function DirEnd(p: string): (n: nat)
    ensures n <= |p|
    ensures n > 0 ==> p[n - 1] == '/'
    ensures '/' !in p[n..]
  {
    if p == [] then 0
    else if p[|p| - 1] == '/' then |p|
    else
      var n := DirEnd(p[..|p| - 1]);
      assert p[n..] == p[..|p| - 1][n..] + [p[|p| - 1]];
      n
  }

  /** Section 5.2.3 of RFC 3986: a relative path put in the base's directory. */
  function Merge(base: Reference, path: string): string {
    if base.authority.Some? && base.path == [] then "/" + path
    else base.path[..DirEnd(base.path)] + path
  }

  /**
   * Section 5.2.2 of RFC 3986 for a reference without a scheme (one with a
   * scheme never gets here, see `Join`), without query and fragment.
   */
  function Resolve(base: Reference, ref: Reference): (r: Reference)
    requires ref.scheme.None?
    ensures r.scheme == base.scheme
    ensures ref.authority.Some? ==>
      r == Reference(base.scheme, Some(ServerText(MergedServer(base.authority, ref.authority.value))), ref.path)
    ensures ref.authority.None? && ref.path == [] ==> r == base
    ensures ref.authority.None? && ref.path != [] ==> r.authority == base.authority
    ensures ref.authority.None? && ref.path != [] && base.authority.Some? && (base.path == [] || base.path[0] == '/') ==>
      r.path != [] && r.path[0] == '/' && RemoveDotSegments(r.path) == r.path
  {
    if ref.authority.Some? then
      Reference(base.scheme, Some(ServerText(MergedServer(base.authority, ref.authority.value))), ref.path)
    else if ref.path == [] then base
    else
      var merged := if ref.path[0] == '/' then ref.path else Merge(base, ref.path);
      if base.authority.Some? && (base.path == [] || base.path[0] == '/') then
        MergedAbsolute(base, ref.path);
        RemoveDotSegmentsIdempotent(merged);
        Reference(base.scheme, base.authority, RemoveDotSegments(merged))
      else Reference(base.scheme, base.authority, RemoveDotSegments(merged))
  }

  /** Under a base with an authority and an absolute or empty path, the merged path is absolute. */
  lemma MergedAbsolute(base: Reference, path: string)
    requires path != [] && base.authority.Some? && (base.path == [] || base.path[0] == '/')
    ensures var merged := if path[0] == '/' then path else Merge(base, path);
      merged != [] && merged[0] == '/'
  {
    if path[0] != '/' && base.path != [] {
      assert base.path[0] == '/' && base.path[0..] == base.path;
    }
  }

  /** `URI.merge` refuses to resolve a relative reference against a relative base. */
  datatype Error = RelativeBase

  /**
   * `URI.join(base, ref).to_s`: `ref` resolved against `base`. A reference
   * with a scheme is returned as it is, whatever the base; otherwise it fails
   * when the base has no scheme.
   */
  function Join(base: string, ref: string): (r: Result<string, Error>)
    ensures r.Err? <==> !HasScheme(base) && !HasScheme(ref)
    ensures HasScheme(ref) ==> r == Ok(ref)
  {
    if HasScheme(ref) then Ok(ref)
    else if !HasScheme(base) then Err(RelativeBase)
    else Ok(Recompose(Resolve(Parse(base), Parse(ref))))
  }

  /** A reference that has a path only: no scheme and no authority. */
  predicate IsPathReference(s: string) {
    !HasScheme(s) && !("//" <= s)
  }

  lemma PathReferenceParse(ref: string)
    requires IsPathReference(ref)
    ensures Parse(ref) == Reference(None, None, ref)
  {
  }

  /**
   * A path reference joined to a URL with a server stays on that server, and
   * the joined path is absolute and free of "." and ".." segments.
   */
  lemma JoinPath(base: string, ref: string)
    requires Origin(base).Some?
    requires IsPathReference(ref) && ref != []
    ensures Join(base, ref).Ok?
    ensures var u := Join(base, ref).value;
      && Origin(u) == Origin(base)
      && Parse(u).path != [] && Parse(u).path[0] == '/'
      && RemoveDotSegments(Parse(u).path) == Parse(u).path
  {
    var b, rr := Parse(base), Parse(ref);
    PathReferenceParse(ref);
    var t := Resolve(b, rr);
    assert WellFormed(t);
    ParseRecompose(t);
  }

  lemma OriginHasScheme(s: string)
    requires Origin(s).Some?
    ensures HasScheme(s)
  {
    assert Parse(s).scheme.Some?;
  }

  /** An empty reference resolves to the base itself. */
  lemma JoinEmpty(base: string)
    requires HasScheme(base)
    ensures Join(base, []) == Ok(base)
  {
    PathReferenceParse([]);
  }

  /** Putting a '/' after a URL with a server keeps the server. */
  lemma OriginSlash(s: string)
    requires Origin(s).Some?
    ensures Origin(s + "/") == Origin(s)
  {
    var b := Parse(s);
    var r := Reference(b.scheme, b.authority, b.path + "/");
    assert Recompose(r) == Recompose(b) + "/";
    ParseRecompose(r);
  }

  /**
   * A relative path joined to `scheme://authority/dir/`, where the path ends
   * with '/', is resolved inside that directory.
   */
  lemma JoinUnderDirectory(scheme: string, authority: string, dir: string, ref: string)
    requires IsSchemeName(scheme) && '/' !in authority
    requires dir != [] && dir[0] == '/' && dir[|dir| - 1] == '/'
    requires IsPathReference(ref) && ref != [] && ref[0] != '/'
    ensures Join(scheme + "://" + authority + dir, ref) == Ok(scheme + "://" + authority + RemoveDotSegments(dir + ref))
  {
    var b := Reference(Some(scheme), Some(authority), dir);
    OriginPath(b, dir);
    PathReferenceParse(ref);
    assert dir[..|dir|] == dir;
    RecomposeServer(scheme, authority, RemoveDotSegments(dir + ref));
  }

  /**
   * A directory joined to `scheme://authority` + `base`, then a relative path
   * joined to the result: each is resolved in turn.
   */
  lemma JoinTwice(scheme: string, authority: string, base: string, dir: string, ref: string)
    requires IsSchemeName(scheme) && '/' !in authority
    requires base != [] && base[0] == '/' && base[|base| - 1] == '/'
    requires IsPathReference(dir) && dir != [] && dir[0] != '/' && dir[|dir| - 1] == '/'
    requires IsPathReference(ref) && ref != [] && ref[0] != '/'
    ensures var d := RemoveDotSegments(base + dir);
      && Join(scheme + "://" + authority + base, dir) == Ok(scheme + "://" + authority + d)
      && Join(scheme + "://" + authority + d, ref) == Ok(scheme + "://" + authority + RemoveDotSegments(d + ref))
  {
    var path := base + dir;
    assert path[0] == '/' && path[|path| - 1] == '/';
    var d := RemoveDotSegments(path);
    assert d != [] && d[0] == '/' && d[|d| - 1] == '/';
    JoinUnderDirectory(scheme, authority, d, ref);
    JoinUnderDirectory(scheme, authority, base, dir);
  }

  /**
   * A reference with a server joined to `scheme://server` + `path`: the
   * reference's host and path are taken, and so are its userinfo and its
   * port where it has them; otherwise the base's userinfo and port stay.
   */
  lemma JoinServer(scheme: string, b: Server, path: string, s: Server, refPath: string)
    requires IsSchemeName(scheme)
    requires IsServer(b) && IsServer(s)
    requires '/' !in ServerText(b) && '/' !in ServerText(s)
    requires path == [] || path[0] == '/'
    requires refPath == [] || refPath[0] == '/'
    ensures Join(scheme + "://" + ServerText(b) + path, "//" + ServerText(s) + refPath) == Ok(
      scheme + "://"
      + ServerText(Server(if s.userinfo.Some? then s.userinfo else b.userinfo, s.host, if s.port.Some? then s.port else b.port))
      + refPath)
  {
    var base := Reference(Some(scheme), Some(ServerText(b)), path);
    RecomposeServer(scheme, ServerText(b), path);
    ParseRecompose(base);
    var ref := Reference(None, Some(ServerText(s)), refPath);
    assert Recompose(ref) == "//" + ServerText(s) + refPath;
    ParseRecompose(ref);
    SlashNoScheme(Recompose(ref));
    ServerRoundTrip(b);
    ServerRoundTrip(s);
    var m := Server(if s.userinfo.Some? then s.userinfo else b.userinfo, s.host, if s.port.Some? then s.port else b.port);
    assert Resolve(base, ref) == Reference(Some(scheme), Some(ServerText(m)), refPath);
    RecomposeServer(scheme, ServerText(m), refPath);
  }

  /** A reference with a scheme and an authority put back together. */
  lemma RecomposeServer(scheme: string, authority: string, path: string)
    ensures Recompose(Reference(Some(scheme), Some(authority), path)) == scheme + "://" + authority + path
  {
    assert scheme + ":" + ("//" + authority) + path == scheme + "://" + authority + path;
  }
}
