/**
 * The cases of the parser's unit tests, as lemmas: the repository the tests
 * stub (a working copy of `trunk/lib` in `svn://example.com/var/svn/proj`),
 * the single lines they parse, the URLs they resolve and the listings whose
 * maps they compare.
 *
 * Long string constants are written as concatenations of short pieces, and
 * the general lemmas are stated over variables: the verifier then reasons
 * about their structure instead of evaluating functions character by
 * character.
 */
module PropgetParserExamples {
  import opened Wrappers
  import Strings
  import Shellwords
  import Uri
  import opened PropgetParser

  /** The stubbed working copy: `repository` and `info.repository_root`. */
  const Repo := Repository("svn" + "://" + "example.com" + "/var/svn/proj/trunk/lib",
                           "svn" + "://" + "example.com" + "/var/svn/proj")

  // ----- URLs with a server -----

  lemma ParseServerUrl(scheme: string, authority: string, path: string)
    requires Uri.IsSchemeName(scheme) && '/' !in authority && authority != [] && (path == [] || path[0] == '/')
    ensures Uri.Parse(scheme + "://" + authority + path) == Uri.Reference(Some(scheme), Some(authority), path)
    ensures Uri.Origin(scheme + "://" + authority + path) == Some(scheme + "://" + authority)
  {
    var r := Uri.Reference(Some(scheme), Some(authority), path);
    Uri.RecomposeServer(scheme, authority, path);
    Uri.ParseRecompose(r);
  }

  lemma SchemeOfServerUrl(scheme: string, authority: string, path: string)
    requires Uri.IsSchemeName(scheme)
    ensures Uri.Scheme(scheme + "://" + authority + path) == Some(scheme)
  {
    Uri.SchemeOfPrefixed(scheme, "//" + authority + path);
    assert scheme + ":" + ("//" + authority + path) == scheme + "://" + authority + path;
  }

  lemma RepoUrl()
    ensures Uri.Parse(Repo.url) == Uri.Reference(Some("svn"), Some("example.com"), "/var/svn/proj/trunk/lib")
    ensures Uri.Origin(Repo.url) == Some("svn://example.com")
    ensures Uri.Scheme(Repo.url) == Some("svn")
  {
    assert Uri.IsSchemeName("svn");
    ParseServerUrl("svn", "example.com", "/var/svn/proj/trunk/lib");
    SchemeOfServerUrl("svn", "example.com", "/var/svn/proj/trunk/lib");
    RepoOrigin();
  }

  lemma RepoOrigin()
    ensures "svn" + "://" + "example.com" == "svn://example.com"
  {
  }

  /** Text without ':' carries no scheme. */
  lemma NoColonNoScheme(s: string)
    requires ':' !in s
    ensures !Uri.HasScheme(s)
  {
  }

  /** A directory name that joins as one path segment. */
  predicate IsDirName(t: string) {
    t != [] && Uri.IsSegmentText(t) && ':' !in t
  }

  /** Joining `t/` to a directory URL descends into `t`. */
  lemma JoinSubdirectory(scheme: string, authority: string, xs: seq<string>, t: string)
    requires Uri.IsSchemeName(scheme) && '/' !in authority && Uri.AllSegments(xs)
    requires IsDirName(t)
    ensures var origin := scheme + "://" + authority;
      Uri.Join(origin + (Strings.Concat(xs) + "/"), t + "/") == Ok(origin + (Strings.Concat(xs + ["/" + t]) + "/"))
  {
    var dir := Strings.Concat(xs) + "/";
    DirectoryOfSegments(xs);
    NoColonNoScheme(t + "/");
    assert (t + "/")[0] == t[0] && t[0] in t;
    Uri.JoinUnderDirectory(scheme, authority, dir, t + "/");
    SubdirectorySegments(xs, t);
  }

  lemma DirectoryOfSegments(xs: seq<string>)
    requires Uri.AllSegments(xs)
    ensures var dir := Strings.Concat(xs) + "/"; dir[0] == '/' && dir[|dir| - 1] == '/'
  {
    Uri.ConcatOfSegments(xs);
  }

  lemma SubdirectorySegments(xs: seq<string>, t: string)
    requires Uri.AllSegments(xs) && IsDirName(t)
    ensures Uri.RemoveDotSegments(Strings.Concat(xs) + "/" + (t + "/")) == Strings.Concat(xs + ["/" + t]) + "/"
  {
    var ys := xs + ["/" + t, "/"];
    assert ("/" + t)[1..] == t;
    assert Uri.AllSegments(ys);
    Strings.ConcatAppend(xs, ["/" + t, "/"]);
    Strings.ConcatSnoc(xs, "/" + t);
    ConcatOfTwo("/" + t, "/");
    var c := Strings.Concat(xs);
    assert Strings.Concat(ys) == c + ("/" + t + "/");
    assert c + "/" + (t + "/") == c + ("/" + t + "/");
    assert Strings.Concat(xs + ["/" + t]) + "/" == c + ("/" + t + "/");
    Uri.RemoveDotSegmentsOfSegments(ys);
  }

  /** `../../name` against the directory `xs/a/b/` names `name` in `xs`. */
  lemma JoinUpTwo(scheme: string, authority: string, xs: seq<string>, a: string, b: string, name: string)
    requires Uri.IsSchemeName(scheme) && '/' !in authority && Uri.AllSegments(xs + [a, b])
    requires IsDirName(name)
    ensures var origin := scheme + "://" + authority;
      Uri.Join(origin + (Strings.Concat(xs + [a, b]) + "/"), "../../" + name) == Ok(origin + (Strings.Concat(xs) + "/" + name))
  {
    var dir := Strings.Concat(xs + [a, b]) + "/";
    DirectoryOfSegments(xs + [a, b]);
    var ref := "../../" + name;
    NoColonNoScheme(ref);
    Uri.JoinUnderDirectory(scheme, authority, dir, ref);
    UpTwoSegments(xs, a, b, name);
  }

  lemma UpTwoSegments(xs: seq<string>, a: string, b: string, name: string)
    requires Uri.AllSegments(xs + [a, b]) && IsDirName(name)
    ensures Uri.RemoveDotSegments(Strings.Concat(xs + [a, b]) + "/" + ("../../" + name)) == Strings.Concat(xs) + "/" + name
  {
    var q := "/../../" + name;
    assert Strings.Concat(xs + [a, b]) + "/" + ("../../" + name) == Strings.Concat(xs + [a, b]) + q;
    Uri.RemoveDotsThrough(xs + [a, b], q, []);
    assert [] + (xs + [a, b]) == xs + [a, b];
    RemoveTwoUp(xs, a, b, name);
    Strings.ConcatSnoc(xs, "/" + name);
  }

  lemma RemoveTwoUp(xs: seq<string>, a: string, b: string, name: string)
    requires IsDirName(name)
    ensures Uri.RemoveDots("/../../" + name, xs + [a, b]) == xs + ["/" + name]
  {
    assert xs + [a, b] == xs + [a] + [b];
    assert "/../../" + name == "/.." + ("/../" + name);
    assert "/../" + name == "/.." + ("/" + name);
    assert ("/" + name)[1..] == name;
    assert "/" + name + [] == "/" + name;
    UpOne("/../" + name, xs + [a], b);
    UpOne("/" + name, xs, a);
    Uri.RemoveDotsMove("/" + name, [], xs);
  }

  /** One leading "/.." takes the last output segment with it. */
  lemma UpOne(rest: string, xs: seq<string>, a: string)
    requires rest != [] && rest[0] == '/'
    ensures Uri.RemoveDots("/.." + rest, xs + [a]) == Uri.RemoveDots(rest, xs)
  {
    var input := "/.." + rest;
    assert input[..4] == "/../" && input[3..] == rest;
    assert input[0] == '/' && input[2] == '.' && |input| > 3;
    assert !("../" <= input) && !("./" <= input) && !("/./" <= input) && input != "/.";
    assert Uri.DropLast(xs + [a]) == xs;
  }

  lemma ConcatOfTwo(a: string, b: string)
    ensures Strings.Concat([a, b]) == a + b
  {
    assert [a, b][1..] == [b] && [b][1..] == [];
    assert Strings.Concat([b]) == b + Strings.Concat([]) == b;
  }

  lemma ConcatOfFour(a: string, b: string, c: string, d: string)
    ensures Strings.Concat([a, b, c, d]) == a + b + c + d
  {
    assert [a, b, c, d][1..] == [b, c, d] && [b, c, d][1..] == [c, d];
    ConcatOfTwo(c, d);
    assert Strings.Concat([b, c, d]) == b + (c + d);
  }

  /**
   * `../../ext` under any one-directory property target resolves to `ext`
   * next to `lib`: both the target and `lib` are climbed out of.
   */
  lemma UpTwoFromTarget(t: string)
    requires IsDirName(t)
    ensures ResolveExternalUrl(Repo, "../../ext", Some(t)) == Ok("svn://example.com/var/svn/proj/trunk/ext")
  {
    var origin := "svn" + "://" + "example.com";
    var trunk := ["/var", "/svn", "/proj", "/trunk"];
    var lib := trunk + ["/lib"];
    var base := origin + (Strings.Concat(lib + ["/" + t]) + "/");
    JoinTarget(t);
    UpTwoFromLib(t);
    assert ShorthandOf("../../ext") == ParentRelative;
  }

  lemma JoinTarget(t: string)
    requires IsDirName(t)
    ensures Uri.Join(Repo.url + "/", t + "/")
      == Ok(("svn" + "://" + "example.com") + (Strings.Concat(["/var", "/svn", "/proj", "/trunk"] + ["/lib"] + ["/" + t]) + "/"))
  {
    LibDir();
    SvnServer();
    JoinSubdirectory("svn", "example.com", ["/var", "/svn", "/proj", "/trunk"] + ["/lib"], t);
  }

  /** The working copy's URL, as the directory `lib` on the server. */
  lemma LibDir()
    ensures Uri.AllSegments(["/var", "/svn", "/proj", "/trunk"] + ["/lib"])
    ensures Repo.url + "/" == ("svn" + "://" + "example.com") + (Strings.Concat(["/var", "/svn", "/proj", "/trunk"] + ["/lib"]) + "/")
  {
    var trunk := ["/var", "/svn", "/proj", "/trunk"];
    ConcatOfFour("/var", "/svn", "/proj", "/trunk");
    Strings.ConcatSnoc(trunk, "/lib");
    LibPath();
    SlashAfter("svn" + "://" + "example.com", "/var/svn/proj/trunk/lib", Strings.Concat(trunk + ["/lib"]));
  }

  lemma LibPath()
    ensures "/var" + "/svn" + "/proj" + "/trunk" + "/lib" == "/var/svn/proj/trunk/lib"
  {
  }

  lemma SlashAfter(origin: string, path: string, p: string)
    requires path == p
    ensures origin + path + "/" == origin + (p + "/")
  {
  }

  lemma UpTwoFromLib(t: string)
    requires IsDirName(t)
    ensures Uri.Join(("svn" + "://" + "example.com") + (Strings.Concat(["/var", "/svn", "/proj", "/trunk"] + ["/lib"] + ["/" + t]) + "/"), "../../ext")
      == Ok("svn://example.com/var/svn/proj/trunk/ext")
  {
    var trunk := ["/var", "/svn", "/proj", "/trunk"];
    ConcatOfFour("/var", "/svn", "/proj", "/trunk");
    assert trunk + ["/lib"] + ["/" + t] == trunk + ["/lib", "/" + t];
    UnderLib(t);
    SvnServer();
    ExtName();
    TrunkExt("svn", "example.com", trunk, "ext");
    UpTwoUnder("svn", "example.com", trunk, "/lib", "/" + t, "ext", "svn://example.com/var/svn/proj/trunk/ext");
  }

  lemma UnderLib(t: string)
    requires IsDirName(t)
    ensures Uri.AllSegments(["/var", "/svn", "/proj", "/trunk"] + ["/lib", "/" + t])
  {
    assert ("/" + t)[1..] == t;
  }

  lemma SvnServer()
    ensures Uri.IsSchemeName("svn") && '/' !in "example.com"
  {
  }

  lemma ExtName()
    ensures IsDirName("ext") && "../../" + "ext" == "../../ext"
  {
  }

  /** `../../name` against `xs/a/b/` on a server, for a known result. */
  lemma UpTwoUnder(scheme: string, authority: string, xs: seq<string>, a: string, b: string, name: string, whole: string)
    requires Uri.IsSchemeName(scheme) && '/' !in authority && Uri.AllSegments(xs + [a, b])
    requires IsDirName(name)
    requires whole == (scheme + "://" + authority) + (Strings.Concat(xs) + "/" + name)
    ensures Uri.Join((scheme + "://" + authority) + (Strings.Concat(xs + [a, b]) + "/"), "../../" + name) == Ok(whole)
  {
    JoinUpTwo(scheme, authority, xs, a, b, name);
  }

  lemma TrunkExt(scheme: string, authority: string, xs: seq<string>, name: string)
    requires scheme == "svn" && authority == "example.com" && name == "ext"
    requires Strings.Concat(xs) == "/var/svn/proj/trunk"
    ensures (scheme + "://" + authority) + (Strings.Concat(xs) + "/" + name) == "svn://example.com/var/svn/proj/trunk/ext"
  {
    RepoOrigin();
    TrunkExtPath();
    TrunkExtUrl();
  }

  lemma TrunkExtPath()
    ensures "/var/svn/proj/trunk" + "/" + "ext" == "/var/svn/proj/trunk/ext"
  {
  }

  lemma TrunkExtUrl()
    ensures "svn://example.com" + "/var/svn/proj/trunk/ext" == "svn://example.com/var/svn/proj/trunk/ext"
  {
  }

  /** Joining a name to a directory URL names it in that directory. */
  lemma JoinName(scheme: string, authority: string, xs: seq<string>, name: string)
    requires Uri.IsSchemeName(scheme) && '/' !in authority && Uri.AllSegments(xs)
    requires IsDirName(name)
    ensures var origin := scheme + "://" + authority;
      Uri.Join(origin + (Strings.Concat(xs) + "/"), name) == Ok(origin + (Strings.Concat(xs) + "/" + name))
  {
    var dir := Strings.Concat(xs) + "/";
    DirectoryOfSegments(xs);
    NoColonNoScheme(name);
    assert name[0] in name;
    Uri.JoinUnderDirectory(scheme, authority, dir, name);
    NameSegments(xs, name);
  }

  lemma NameSegments(xs: seq<string>, name: string)
    requires Uri.AllSegments(xs) && IsDirName(name)
    ensures Uri.RemoveDotSegments(Strings.Concat(xs) + "/" + name) == Strings.Concat(xs) + "/" + name
  {
    var ys := xs + ["/" + name];
    assert ("/" + name)[1..] == name;
    assert Uri.AllSegments(ys);
    Strings.ConcatSnoc(xs, "/" + name);
    assert Strings.Concat(xs) + "/" + name == Strings.Concat(ys);
    Uri.RemoveDotSegmentsOfSegments(ys);
  }

  /** `^/name` names `name` at the repository root. */
  lemma RootRelativeName(name: string, target: Option<string>)
    requires IsDirName(name)
    ensures ResolveExternalUrl(Repo, "^/" + name, target) == Ok("svn://example.com/var/svn/proj/" + name)
  {
    var url := "^/" + name;
    assert url[..2] == "^/" && url[2..] == name;
    RootRelativeJoins(Repo, url, target);
    JoinAtRoot(name);
  }

  lemma JoinAtRoot(name: string)
    requires IsDirName(name)
    ensures Uri.Join(Repo.root + "/", name) == Ok("svn://example.com/var/svn/proj/" + name)
  {
    var proj := ["/var", "/svn", "/proj"];
    assert Uri.IsSchemeName("svn");
    assert Uri.AllSegments(proj);
    assert proj[1..] == ["/svn", "/proj"];
    ConcatOfTwo("/svn", "/proj");
    assert Strings.Concat(proj) == "/var/svn/proj";
    assert Repo.root + "/" == ("svn" + "://" + "example.com") + (Strings.Concat(proj) + "/");
    JoinName("svn", "example.com", proj, name);
    ProjName("svn" + "://" + "example.com", Strings.Concat(proj), name);
  }

  lemma ProjName(origin: string, path: string, name: string)
    requires origin == "svn" + "://" + "example.com" && path == "/var/svn/proj"
    ensures origin + (path + "/" + name) == "svn://example.com/var/svn/proj/" + name
  {
    RepoOrigin();
    ProjPrefix();
    assert origin + (path + "/" + name) == origin + (path + "/") + name;
  }

  lemma ProjPrefix()
    ensures "svn://example.com" + ("/var/svn/proj" + "/") == "svn://example.com/var/svn/proj/"
  {
  }

  // ----- the tests of resolve_external_url -----

  lemma ResolveWithParentDirectory()
    ensures ResolveExternalUrl(Repo, "../../ext", Some("target_dir")) == Ok("svn://example.com/var/svn/proj/trunk/ext")
  {
    assert IsDirName("target_dir");
    UpTwoFromTarget("target_dir");
  }

  /** `^/ext` names `ext` at the repository root, whatever the property target. */
  lemma ResolveWithRepositoryRoot(target: Option<string>)
    ensures ResolveExternalUrl(Repo, "^/ext", target) == Ok("svn://example.com/var/svn/proj/" + "ext")
  {
    ExtName();
    RootExtRef();
    RootRelativeName("ext", target);
  }

  lemma RootExtRef()
    ensures "^/" + "ext" == "^/ext"
  {
  }

  /** `//example.net/ext` takes the repository's scheme. */
  lemma ResolveWithSameScheme(target: Option<string>)
    ensures ResolveExternalUrl(Repo, "//example.net/ext", target) == Ok("svn" + ":" + "//example.net/ext")
  {
    var url := "//example.net/ext";
    assert url[0] == '/' && url[1] == '/' && url[..2] == "//";
    assert ShorthandOf(url) == SchemeRelative;
    RepoUrl();
    SchemeRelativeValue(Repo, url, target);
  }

  /** `/ext` takes the repository's scheme and server. */
  lemma ResolveWithServerRoot(target: Option<string>)
    ensures ResolveExternalUrl(Repo, "/ext", target) == Ok("svn://example.com" + "/ext")
  {
    var url := "/ext";
    assert url[0] == '/' && url[1] == 'e' && url[..1] == "/";
    assert ShorthandOf(url) == ServerRelative;
    RepoUrl();
    ServerRelativeValue(Repo, url, target);
  }

  /**
   * An external on another server keeps the root's port when it names none:
   * `^///mirror.net/ext` under the root `svn://example.com:3690/var/svn/proj`
   * gives `svn://mirror.net:3690/ext`. Stated for any such hosts, port and
   * paths.
   */
  lemma ResolveKeepsPort(repoUrl: string, host: string, port: string, path: string,
                         other: string, extPath: string, target: Option<string>)
    requires '@' !in host && '/' !in host
    requires '@' !in other && '/' !in other && ':' !in other
    requires Uri.IsPort(port)
    requires path == [] || path[0] == '/'
    requires extPath == [] || extPath[0] == '/'
    ensures ResolveExternalUrl(Repository(repoUrl, "svn://" + host + ":" + port + path), "^///" + other + extPath, target)
      == Ok("svn://" + other + ":" + port + extPath)
  {
    var root := "svn://" + host + ":" + port + path;
    var url := "^///" + other + extPath;
    ServerSpelling(host, port, path, other, extPath);
    RootRelativeJoins(Repository(repoUrl, root), url, target);
    var b := Uri.Server(None, host, Some(port));
    var s := Uri.Server(None, other, None);
    PortChars(port);
    assert !Uri.EndsWithPort(other) by {
      var n := Uri.TrailingDigits(other);
      assert n < |other| ==> other[|other| - n - 1] in other;
    }
    assert Uri.IsSchemeName("svn");
    Uri.JoinServer("svn", b, path + "/", s, extPath);
    var m := Uri.Server(None, other, Some(port));
    assert Uri.Join(root + "/", url[2..]) == Ok("svn" + "://" + Uri.ServerText(m) + extPath);
  }

  lemma ServerSpelling(host: string, port: string, path: string, other: string, extPath: string)
    ensures var url := "^///" + other + extPath;
      url[..2] == "^/" && url[2..] == "//" + Uri.ServerText(Uri.Server(None, other, None)) + extPath
    ensures "svn://" + host + ":" + port + path + "/"
      == "svn" + "://" + Uri.ServerText(Uri.Server(None, host, Some(port))) + (path + "/")
    ensures "svn" + "://" + Uri.ServerText(Uri.Server(None, other, Some(port))) + extPath
      == "svn://" + other + ":" + port + extPath
  {
    assert "svn://" == "svn" + "://";
    assert "^///" == "^/" + "//";
  }

  lemma PortChars(port: string)
    requires Uri.IsPort(port)
    ensures '/' !in ":" + port && '@' !in ":" + port
  {
    assert forall i :: 0 <= i < |port| ==> (":" + port)[i + 1] == port[i];
  }

  lemma SchemeRelativeValue(repo: Repository, url: string, target: Option<string>)
    requires ShorthandOf(url) == SchemeRelative && Uri.Scheme(repo.url).Some?
    ensures ResolveExternalUrl(repo, url, target) == Ok(Uri.Scheme(repo.url).value + ":" + url)
  {
  }

  lemma ServerRelativeValue(repo: Repository, url: string, target: Option<string>)
    requires ShorthandOf(url) == ServerRelative && Uri.Origin(repo.url).Some?
    ensures ResolveExternalUrl(repo, url, target) == Ok(Uri.Origin(repo.url).value + url)
  {
  }

  // ----- lines without leading whitespace -----

  lemma OldLine(repo: Repository, dir: string, gap: string, url: string, end: string, target: Option<string>)
    requires Shellwords.IsBlank(gap) && gap != [] && Shellwords.IsBlank(end)
    requires Shellwords.IsPlainWord(dir) && Shellwords.IsPlainWord(url) && dir[0] != '#'
    requires Uri.HasScheme(url)
    ensures ParseLine(repo, dir + gap + url + end, target) == Ok(Some(External(url, dir)))
  {
    OldFormat(repo, "", dir, gap, url, end, target);
    NoLead(dir, gap, url, end);
  }

  lemma NewLine(repo: Repository, url: string, gap: string, dir: string, end: string, target: Option<string>, resolved: string)
    requires Shellwords.IsBlank(gap) && gap != [] && Shellwords.IsBlank(end)
    requires Shellwords.IsPlainWord(url) && Shellwords.IsPlainWord(dir) && url[0] != '#'
    requires ':' !in dir
    requires ResolveExternalUrl(repo, url, target) == Ok(resolved)
    ensures ParseLine(repo, url + gap + dir + end, target) == Ok(Some(External(resolved, dir)))
  {
    NoColonNoScheme(dir);
    NewFormat(repo, "", url, gap, dir, end, target);
    NoLead(url, gap, dir, end);
  }

  lemma NoLead(a: string, b: string, c: string, d: string)
    ensures "" + a + b + c + d == a + b + c + d
  {
  }

  lemma SkipsThreeWords(repo: Repository, w0: string, w1: string, w2: string, target: Option<string>)
    requires Shellwords.IsPlainWord(w0) && Shellwords.IsPlainWord(w1) && Shellwords.IsPlainWord(w2)
    ensures ParseLine(repo, w0 + " " + w1 + " " + w2, target) == Ok(None)
  {
    var gaps := [" ", " ", ""];
    assert Shellwords.Separates(gaps);
    WrongArityIsSkipped(repo, "", [w0, w1, w2], gaps, target);
    Shellwords.LayoutOfThree(w0, " ", w1, " ", w2, "");
    assert "" + (w0 + " " + w1 + " " + w2 + "") == w0 + " " + w1 + " " + w2;
  }

  // ----- the tests of parse_line -----

  lemma ParseLineWithComment()
    ensures ParseLine(Repo, "# Comment", Some("prop_dir")) == Ok(None)
  {
  }

  /** A definition pinned to a revision has three words and is skipped. */
  lemma ParseLineWithHyphenR(target: Option<string>)
    ensures ParseLine(Repo, "-r25" + " " + "http://example.com/repo" + " " + "ext", target) == Ok(None)
  {
    RevisionPlain();
    RepoPlain();
    ExtPlain();
    SkipsThreeWords(Repo, "-r25", "http://example.com/repo", "ext", target);
  }

  lemma RevisionPlain()
    ensures Shellwords.IsPlainWord("-r25")
  {
  }

  lemma RepoPlain()
    ensures Shellwords.IsPlainWord("http://example.com/repo")
  {
  }

  lemma ExtPlain()
    ensures Shellwords.IsPlainWord("ext")
  {
  }

  /** The format before Subversion 1.5: the directory, then a URL with a scheme. */
  lemma ParseLineWith14Format(target: Option<string>)
    ensures ParseLine(Repo, "foo" + " " + ("http" + ":" + "//example.com/svn/foo") + "", target)
      == Ok(Some(External("http" + ":" + "//example.com/svn/foo", "foo")))
  {
    var url := "http" + ":" + "//example.com/svn/foo";
    assert Shellwords.IsPlainWord("foo") && Shellwords.IsPlainWord(url);
    assert Uri.IsSchemeName("http");
    Uri.SchemeOfPrefixed("http", "//example.com/svn/foo");
    OldLine(Repo, "foo", " ", url, "", target);
  }

  /** The format of Subversion 1.5: a URL relative to the property target, then the directory. */
  lemma ParseLineWith15Format()
    ensures ParseLine(Repo, "../../ext" + " " + "some_dir" + "", Some("prop_dir"))
      == Ok(Some(External("svn://example.com/var/svn/proj/trunk/ext", "some_dir")))
  {
    WordsOf15Line();
    assert IsDirName("prop_dir");
    UpTwoFromTarget("prop_dir");
    NewLine(Repo, "../../ext", " ", "some_dir", "", Some("prop_dir"), "svn://example.com/var/svn/proj/trunk/ext");
  }

  lemma WordsOf15Line()
    ensures Shellwords.IsPlainWord("../../ext") && Shellwords.IsPlainWord("some_dir")
    ensures ':' !in "some_dir"
  {
    UpTwoExtPlain();
    SomeDirPlain();
  }

  lemma UpTwoExtPlain()
    ensures Shellwords.IsPlainWord("../../ext")
  {
  }

  lemma SomeDirPlain()
    ensures Shellwords.IsPlainWord("some_dir")
  {
  }

  // ----- where " - " cannot occur -----

  lemma BlankNoSeparator(g: string)
    requires Shellwords.IsBlank(g)
    ensures NoSeparator(g)
  {
    forall j | 0 <= j < |g| ensures !SeparatorAt(g, j) {
      if j + 1 < |g| {
        assert Shellwords.IsSpace(g[j + 1]);
      }
    }
  }

  lemma NoDashNoSeparator(s: string)
    requires '-' !in s
    ensures NoSeparator(s)
  {
    forall j | 0 <= j < |s| ensures !SeparatorAt(s, j) {
      if j + 1 < |s| {
        assert s[j + 1] in s;
      }
    }
  }

  lemma PlainNoSeparator(w: string)
    requires Shellwords.IsPlainWord(w)
    ensures NoSeparator(w)
  {
    forall j | 0 <= j < |w| ensures !SeparatorAt(w, j) {
      assert Shellwords.IsPlain(w[j]);
    }
  }

  lemma AppendWord(a: string, w: string)
    requires NoSeparator(a) && Shellwords.IsPlainWord(w)
    ensures NoSeparator(a + w)
  {
    PlainNoSeparator(w);
    assert Shellwords.IsPlain(w[0]);
    if |w| >= 2 {
      assert Shellwords.IsPlain(w[1]);
    }
    NoSeparatorJoin(a, w);
  }

  lemma AppendBlank(a: string, w: string, g: string)
    requires NoSeparator(a + w) && Shellwords.IsPlainWord(w) && w != "-" && Shellwords.IsBlank(g)
    ensures NoSeparator(a + w + g)
  {
    BlankNoSeparator(g);
    var x := a + w;
    if |w| >= 2 {
      assert x[|x| - 2] == w[|w| - 2];
      assert Shellwords.IsPlain(w[|w| - 2]);
    } else {
      assert w == [w[0]];
      assert x[|x| - 1] == w[0];
    }
    NoSeparatorJoin(x, g);
  }

  /** A definition laid out as two plain words holds no " - ", unless a word is "-" itself. */
  lemma DefinitionNoSeparator(lead: string, w0: string, gap: string, w1: string, end: string)
    requires Shellwords.IsBlank(lead) && Shellwords.IsBlank(gap) && Shellwords.IsBlank(end)
    requires Shellwords.IsPlainWord(w0) && Shellwords.IsPlainWord(w1) && w0 != "-" && w1 != "-"
    ensures NoSeparator(lead + w0 + gap + w1 + end)
  {
    BlankNoSeparator(lead);
    AppendWord(lead, w0);
    AppendBlank(lead, w0, gap);
    AppendWord(lead + w0 + gap, w1);
    AppendBlank(lead + w0 + gap, w1, end);
  }

  // ----- one turn of the loop over a listing of the tests' repository -----

  /** A blank line changes nothing. */
  lemma BlankStep(s: State)
    ensures Step(Reader(Repo), s, "\n") == Ok(s)
  {
    assert Shellwords.IsBlank("\n");
    BlankNoSeparator("\n");
    WrongArityIsSkipped(Repo, "\n", [], [], s.currentDir);
    assert "\n" + Shellwords.Layout([], []) == "\n";
    PlainStep(Reader(Repo), s, "\n", None);
  }

  /** A comment changes nothing. */
  lemma CommentStep(s: State, line: string)
    requires "#" <= line && '-' !in line
    ensures Step(Reader(Repo), s, line) == Ok(s)
  {
    NoDashNoSeparator(line);
    PlainStep(Reader(Repo), s, line, None);
  }

  /** `dir - name url`: an old-format definition under a new header. */
  lemma OldHeaderStep(s: State, dir: string, name: string, gap: string, url: string)
    requires NoSeparator(dir + " ")
    requires Shellwords.IsPlainWord(name) && name != "-" && name[0] != '#'
    requires Shellwords.IsBlank(gap) && gap != []
    requires Shellwords.IsPlainWord(url) && Uri.HasScheme(url)
    ensures Step(Reader(Repo), s, dir + " - " + (name + gap + url + "\n"))
      == Ok(State(Some(dir), s.directories[Key(Some(dir), name) := url]))
  {
    var rest := name + gap + url + "\n";
    NoColonNoScheme("-");
    assert Shellwords.IsBlank(" ") && Shellwords.IsBlank("\n");
    DefinitionNoSeparator(" ", name, gap, url, "\n");
    Regroup(" ", name, gap, url, "\n");
    OldLine(Repo, name, gap, url, "\n", Some(dir));
    HeaderStep(Reader(Repo), s, dir, rest, Some(External(url, name)));
  }

  /** `name url` (after `lead`): an old-format definition under the current header. */
  lemma OldPlainStep(s: State, lead: string, name: string, gap: string, url: string)
    requires Shellwords.IsBlank(lead)
    requires Shellwords.IsPlainWord(name) && name != "-" && (lead != [] || name[0] != '#')
    requires Shellwords.IsBlank(gap) && gap != []
    requires Shellwords.IsPlainWord(url) && Uri.HasScheme(url)
    ensures Step(Reader(Repo), s, lead + name + gap + url + "\n")
      == Ok(State(s.currentDir, s.directories[Key(s.currentDir, name) := url]))
  {
    NoColonNoScheme("-");
    assert Shellwords.IsBlank("\n");
    DefinitionNoSeparator(lead, name, gap, url, "\n");
    OldFormat(Repo, lead, name, gap, url, "\n", s.currentDir);
    PlainStep(Reader(Repo), s, lead + name + gap + url + "\n", Some(External(url, name)));
  }

  lemma OldPlainStepNoLead(s: State, name: string, gap: string, url: string)
    requires Shellwords.IsPlainWord(name) && name != "-" && name[0] != '#'
    requires Shellwords.IsBlank(gap) && gap != []
    requires Shellwords.IsPlainWord(url) && Uri.HasScheme(url)
    ensures Step(Reader(Repo), s, name + gap + url + "\n")
      == Ok(State(s.currentDir, s.directories[Key(s.currentDir, name) := url]))
  {
    OldPlainStep(s, "", name, gap, url);
    NoLead(name, gap, url, "\n");
  }

  /** `dir - url name`: a new-format definition under a new header. */
  lemma NewHeaderStep(s: State, dir: string, url: string, gap: string, name: string, resolved: string)
    requires NoSeparator(dir + " ")
    requires Shellwords.IsPlainWord(url) && url != "-" && url[0] != '#'
    requires Shellwords.IsBlank(gap) && gap != []
    requires Shellwords.IsPlainWord(name) && name != "-" && ':' !in name
    requires ResolveExternalUrl(Repo, url, Some(dir)) == Ok(resolved)
    ensures Step(Reader(Repo), s, dir + " - " + (url + gap + name + "\n"))
      == Ok(State(Some(dir), s.directories[Key(Some(dir), name) := resolved]))
  {
    var rest := url + gap + name + "\n";
    assert Shellwords.IsBlank(" ") && Shellwords.IsBlank("\n");
    DefinitionNoSeparator(" ", url, gap, name, "\n");
    Regroup(" ", url, gap, name, "\n");
    NewLine(Repo, url, gap, name, "\n", Some(dir), resolved);
    HeaderStep(Reader(Repo), s, dir, rest, Some(External(resolved, name)));
  }

  /** `url name`: a new-format definition under the current header. */
  lemma NewPlainStep(s: State, url: string, gap: string, name: string, resolved: string)
    requires Shellwords.IsPlainWord(url) && url != "-" && url[0] != '#'
    requires Shellwords.IsBlank(gap) && gap != []
    requires Shellwords.IsPlainWord(name) && name != "-" && ':' !in name
    requires ResolveExternalUrl(Repo, url, s.currentDir) == Ok(resolved)
    ensures Step(Reader(Repo), s, url + gap + name + "\n")
      == Ok(State(s.currentDir, s.directories[Key(s.currentDir, name) := resolved]))
  {
    assert Shellwords.IsBlank("\n");
    DefinitionNoSeparator("", url, gap, name, "\n");
    NoLead(url, gap, name, "\n");
    NewLine(Repo, url, gap, name, "\n", s.currentDir, resolved);
    PlainStep(Reader(Repo), s, url + gap + name + "\n", Some(External(resolved, name)));
  }

  /** `/name` names `name` at the top of the repository's server. */
  lemma ServerRootName(name: string, target: Option<string>)
    requires name != [] && name[0] != '/'
    ensures ResolveExternalUrl(Repo, "/" + name, target) == Ok("svn://example.com" + ("/" + name))
  {
    var url := "/" + name;
    assert url[0] == '/' && url[1] == name[0] && url[..1] == "/";
    assert !("//" <= url);
    assert ShorthandOf(url) == ServerRelative;
    RepoUrl();
    ServerRelativeValue(Repo, url, target);
  }

  // ----- the listing with definitions of Subversion 1.5 -----

  const Blank := "\n"
  const Docs := "directory" + " - " + ("^/" + "docs" + " " + "documentation" + "\n")
  const Comment := "#" + " The following is a" + " <= 1.4.x line" + " (to test mixing" + " different formats)" + "\n"
  const Zig := "foo" + "             " + ("http" + ":" + "//example.com/repos/zig") + "\n"
  const Others := "others" + " - " + ("../../ext" + " " + "target_dir" + "\n")
  const RootExt := ("/" + "root_ext") + " " + "another_dir" + "\n"

  /** The lines of the listing, as `String#lines` cuts them. */
  const Listing15 := [Blank, Docs, Comment, Zig, Blank, Others, RootExt]

  const ZigUrl := "http" + ":" + "//example.com/repos/zig"
  const DocsDirs := map[Key(Some("directory"), "documentation") := "svn://example.com/var/svn/proj/" + "docs"]
  const ZigDirs := DocsDirs[Key(Some("directory"), "foo") := ZigUrl]
  const ExtDirs := ZigDirs[Key(Some("others"), "target_dir") := "svn://example.com/var/svn/proj/trunk/ext"]
  const RootExtDirs := ExtDirs[Key(Some("others"), "another_dir") := "svn://example.com" + ("/" + "root_ext")]

  lemma DocsStep(s: State)
    ensures Step(Reader(Repo), s, Docs)
      == Ok(State(Some("directory"), s.directories[Key(Some("directory"), "documentation") := "svn://example.com/var/svn/proj/" + "docs"]))
  {
    DocsWords();
    DocumentationWord();
    DocsUrl();
    NewHeaderStep(s, "directory", "^/" + "docs", " ", "documentation", "svn://example.com/var/svn/proj/" + "docs");
  }

  lemma DocsWords()
    ensures NoSeparator("directory" + " ")
    ensures Shellwords.IsPlainWord("^/" + "docs")
    ensures Shellwords.IsBlank(" ")
  {
    NoDashNoSeparator("directory" + " ");
  }

  lemma DocumentationWord()
    ensures Shellwords.IsPlainWord("documentation") && ':' !in "documentation"
  {
    DocumentationPlain();
  }

  lemma DocumentationPlain()
    ensures Shellwords.IsPlainWord("documentation")
  {
  }

  lemma DocsUrl()
    ensures ResolveExternalUrl(Repo, "^/" + "docs", Some("directory")) == Ok("svn://example.com/var/svn/proj/" + "docs")
  {
    assert IsDirName("docs");
    RootRelativeName("docs", Some("directory"));
  }

  lemma CommentStep15(s: State)
    ensures Step(Reader(Repo), s, Comment) == Ok(s)
  {
    CommentFacts();
    CommentStep(s, Comment);
  }

  lemma CommentFacts()
    ensures "#" <= Comment && '-' !in Comment
  {
    CommentNoDash();
  }

  lemma CommentNoDash()
    ensures '-' !in "#" + " The following is a" + " <= 1.4.x line"
    ensures '-' !in " (to test mixing" + " different formats)" + "\n"
  {
  }

  lemma ZigStep(s: State)
    ensures Step(Reader(Repo), s, Zig) == Ok(State(s.currentDir, s.directories[Key(s.currentDir, "foo") := ZigUrl]))
  {
    ZigWords();
    OldPlainStepNoLead(s, "foo", "             ", ZigUrl);
  }

  lemma ZigWords()
    ensures Shellwords.IsPlainWord("foo") && "foo" != "-" && "foo"[0] != '#'
    ensures Shellwords.IsBlank("             ") && "             " != []
    ensures Shellwords.IsPlainWord(ZigUrl) && Uri.HasScheme(ZigUrl)
  {
    assert Uri.IsSchemeName("http");
    Uri.SchemeOfPrefixed("http", "//example.com/repos/zig");
    assert Shellwords.IsPlainWord("http" + ":") && Shellwords.IsPlainWord("//example.com/repos/zig");
    assert Shellwords.IsPlainWord("foo") && Shellwords.IsBlank("             ");
  }

  lemma OthersStep(s: State)
    ensures Step(Reader(Repo), s, Others)
      == Ok(State(Some("others"), s.directories[Key(Some("others"), "target_dir") := "svn://example.com/var/svn/proj/trunk/ext"]))
  {
    OthersWords();
    TargetDirWord();
    assert IsDirName("others");
    UpTwoFromTarget("others");
    NewHeaderStep(s, "others", "../../ext", " ", "target_dir", "svn://example.com/var/svn/proj/trunk/ext");
  }

  lemma OthersWords()
    ensures NoSeparator("others" + " ")
    ensures Shellwords.IsPlainWord("../../ext")
    ensures Shellwords.IsBlank(" ")
  {
    NoDashNoSeparator("others" + " ");
  }

  lemma TargetDirWord()
    ensures Shellwords.IsPlainWord("target_dir") && ':' !in "target_dir"
  {
    TargetDirPlain();
  }

  lemma TargetDirPlain()
    ensures Shellwords.IsPlainWord("target_dir")
  {
  }

  lemma RootExtStep(s: State)
    ensures Step(Reader(Repo), s, RootExt)
      == Ok(State(s.currentDir, s.directories[Key(s.currentDir, "another_dir") := "svn://example.com" + ("/" + "root_ext")]))
  {
    RootExtWords();
    AnotherDirWord();
    ServerRootName("root_ext", s.currentDir);
    NewPlainStep(s, "/" + "root_ext", " ", "another_dir", "svn://example.com" + ("/" + "root_ext"));
  }

  lemma RootExtWords()
    ensures Shellwords.IsPlainWord("/" + "root_ext") && Shellwords.IsBlank(" ")
  {
  }

  lemma AnotherDirWord()
    ensures Shellwords.IsPlainWord("another_dir") && ':' !in "another_dir"
  {
    AnotherDirPlain();
  }

  lemma AnotherDirPlain()
    ensures Shellwords.IsPlainWord("another_dir")
  {
  }

  /** The loop over one more line, when that line's turn is known. */
  lemma Then(read: LineReader, ls: seq<string>, line: string, ls': seq<string>, s: State, s': State)
    requires ls' == ls + [line]
    requires Run(read, ls) == Ok(s) && Step(read, s, line) == Ok(s')
    ensures Run(read, ls') == Ok(s')
  {
    RunSnoc(read, ls, line, s);
  }

  /** Seven lines whose turns are known, one after the other. */
  lemma RunSeven(read: LineReader, l0: string, l1: string, l2: string, l3: string, l4: string, l5: string, l6: string,
                 s0: State, s1: State, s2: State, s3: State, s4: State, s5: State, s6: State)
    requires Step(read, State(None, map[]), l0) == Ok(s0)
    requires Step(read, s0, l1) == Ok(s1) && Step(read, s1, l2) == Ok(s2) && Step(read, s2, l3) == Ok(s3)
    requires Step(read, s3, l4) == Ok(s4) && Step(read, s4, l5) == Ok(s5) && Step(read, s5, l6) == Ok(s6)
    ensures Run(read, [l0, l1, l2, l3, l4, l5, l6]) == Ok(s6)
  {
    RunFour(read, l0, l1, l2, l3, s0, s1, s2, s3);
    SplitSeven(l0, l1, l2, l3, l4, l5, l6);
    ThreeMore(read, [l0, l1, l2, l3], l4, l5, l6, [l0, l1, l2, l3, l4, l5, l6], s3, s4, s5, s6);
  }

  lemma SplitSeven<T>(l0: T, l1: T, l2: T, l3: T, l4: T, l5: T, l6: T)
    ensures [l0, l1, l2, l3, l4, l5, l6] == [l0, l1, l2, l3] + [l4, l5, l6]
  {
  }

  lemma SnocThree<T>(ls: seq<T>, a: T, b: T, c: T)
    ensures ls + [a, b] == ls + [a] + [b] && ls + [a, b, c] == ls + [a, b] + [c]
  {
  }

  lemma SnocFour<T>(l0: T, l1: T, l2: T, l3: T)
    ensures [l0] == [] + [l0] && [l0, l1] == [l0] + [l1]
    ensures [l0, l1, l2] == [l0, l1] + [l2] && [l0, l1, l2, l3] == [l0, l1, l2] + [l3]
  {
  }

  lemma SnocEight<T>(l0: T, l1: T, l2: T, l3: T, l4: T, l5: T, l6: T, l7: T)
    ensures [l0, l1, l2, l3, l4, l5, l6, l7] == [l0, l1, l2, l3, l4, l5, l6] + [l7]
  {
  }

  /** Three more lines whose turns are known. */
  lemma ThreeMore(read: LineReader, ls: seq<string>, a: string, b: string, c: string, ls': seq<string>,
                  s: State, sa: State, sb: State, sc: State)
    requires ls' == ls + [a, b, c]
    requires Run(read, ls) == Ok(s)
    requires Step(read, s, a) == Ok(sa) && Step(read, sa, b) == Ok(sb) && Step(read, sb, c) == Ok(sc)
    ensures Run(read, ls') == Ok(sc)
  {
    SnocThree(ls, a, b, c);
    Then(read, ls, a, ls + [a], s, sa);
    Then(read, ls + [a], b, ls + [a, b], sa, sb);
    Then(read, ls + [a, b], c, ls', sb, sc);
  }

  lemma Run15()
    ensures Run(Reader(Repo), Listing15) == Ok(State(Some("others"), RootExtDirs))
  {
    var s0 := State(None, map[]);
    var s1 := State(Some("directory"), DocsDirs);
    var s2 := State(Some("directory"), ZigDirs);
    var s3 := State(Some("others"), ExtDirs);
    BlankStep(s0);
    DocsStep(s0);
    CommentStep15(s1);
    ZigStep(s1);
    BlankStep(s2);
    OthersStep(s2);
    RootExtStep(s3);
    RunSeven(Reader(Repo), Blank, Docs, Comment, Zig, Blank, Others, RootExt,
             s0, s1, s1, s2, s2, s3, State(Some("others"), RootExtDirs));
  }

  /** `text + "\n"` is one whole line when `text` holds no newline. */
  lemma LineOf(pre: string, body: string)
    requires '\n' !in pre && '\n' !in body
    ensures IsLine(pre + (body + "\n"))
  {
    var l := pre + (body + "\n");
    assert l[..|l| - 1] == pre + body;
  }

  lemma LinesOfSeven(l0: string, l1: string, l2: string, l3: string, l4: string, l5: string, l6: string)
    requires IsLine(l0) && IsLine(l1) && IsLine(l2) && IsLine(l3) && IsLine(l4) && IsLine(l5) && IsLine(l6)
    ensures Lines(Strings.Concat([l0, l1, l2, l3, l4, l5, l6])) == [l0, l1, l2, l3, l4, l5, l6]
  {
    LinesOfConcat([l0, l1, l2, l3, l4, l5, l6]);
  }

  lemma BlankLine()
    ensures IsLine(Blank)
  {
    LineOf([], []);
    assert [] + ([] + "\n") == Blank;
  }

  lemma DocsLine()
    ensures IsLine(Docs)
  {
    LineOf("directory" + " - ", "^/" + "docs" + " " + "documentation");
  }

  lemma CommentLine()
    ensures IsLine(Comment)
  {
    var body := "#" + " The following is a" + " <= 1.4.x line" + " (to test mixing" + " different formats)";
    LineOf([], body);
    assert [] + (body + "\n") == Comment;
  }

  lemma ZigLine()
    ensures IsLine(Zig)
  {
    var body := "foo" + "             " + ("http" + ":" + "//example.com/repos/zig");
    LineOf([], body);
    assert [] + (body + "\n") == Zig;
  }

  lemma OthersLine()
    ensures IsLine(Others)
  {
    LineOf("others" + " - ", "../../ext" + " " + "target_dir");
  }

  lemma RootExtLine()
    ensures IsLine(RootExt)
  {
    var body := ("/" + "root_ext") + " " + "another_dir";
    LineOf([], body);
    assert [] + (body + "\n") == RootExt;
  }

  /**
   * The listing with definitions in both formats, a comment and a blank line:
   * the map `parse` returns is the one the test expects.
   */
  lemma ParseWith15Entries()
    ensures Directories(Reader(Repo), Lines(Strings.Concat(Listing15))) == Ok(map[
      "directory/documentation" := "svn://example.com/var/svn/proj/docs",
      "directory/foo" := "http://example.com/repos/zig",
      "others/target_dir" := "svn://example.com/var/svn/proj/trunk/ext",
      "others/another_dir" := "svn://example.com/root_ext"])
  {
    BlankLine();
    DocsLine();
    CommentLine();
    ZigLine();
    OthersLine();
    RootExtLine();
    LinesOfSeven(Blank, Docs, Comment, Zig, Blank, Others, RootExt);
    Run15();
    Expected15();
  }

  lemma Expected15()
    ensures RootExtDirs == map[
      "directory/documentation" := "svn://example.com/var/svn/proj/docs",
      "directory/foo" := "http://example.com/repos/zig",
      "others/target_dir" := "svn://example.com/var/svn/proj/trunk/ext",
      "others/another_dir" := "svn://example.com/root_ext"]
  {
    DocsEntry15();
    ZigEntry15();
    TargetDirKey15();
    RootExtEntry15();
  }

  lemma DocsEntry15()
    ensures Key(Some("directory"), "documentation") == "directory/documentation"
    ensures "svn://example.com/var/svn/proj/" + "docs" == "svn://example.com/var/svn/proj/docs"
  {
  }

  lemma ZigEntry15()
    ensures Key(Some("directory"), "foo") == "directory/foo"
    ensures ZigUrl == "http://example.com/repos/zig"
  {
    ZigUrl15();
  }

  lemma ZigUrl15()
    ensures ZigUrl == "http://example.com/repos/zig"
  {
    assert "http" + ":" == "http:";
    assert "http:" + "//example.com/repos/zig" == "http://example.com/repos/zig";
  }

  lemma TargetDirKey15()
    ensures Key(Some("others"), "target_dir") == "others/target_dir"
  {
  }

  lemma RootExtEntry15()
    ensures Key(Some("others"), "another_dir") == "others/another_dir"
    ensures "svn://example.com" + ("/" + "root_ext") == "svn://example.com/root_ext"
  {
  }

  // ----- the listing of the first test, for any URLs -----

  /** A URL as the definitions before Subversion 1.5 give it: one word with a scheme. */
  predicate IsOldUrl(u: string) {
    Shellwords.IsPlainWord(u) && Uri.HasScheme(u)
  }

  lemma PlainNoNewline(w: string)
    requires Shellwords.IsPlainWord(w)
    ensures '\n' !in w
  {
  }

  function Entry(u1: string, u2: string, u3: string, u4: string, u5: string, u6: string): seq<string> {
    [ "public/javascripts" + " - " + ("js-common" + " " + u1 + "\n"),
      Blank,
      "vendor" + " - " + ("ant" + "    " + u2 + "\n"),
      Blank,
      "vendor/plugins" + " - " + ("pivotal_core_bundle" + "           " + u3 + "\n"),
      "migrator" + "                      " + u4 + "\n",
      "seleniumrc_fu" + "                 " + u5 + "\n",
      "subversion_helper" + "             " + u6 + "\n" ]
  }

  lemma RunEight(read: LineReader, l0: string, l1: string, l2: string, l3: string, l4: string, l5: string, l6: string, l7: string,
                 s0: State, s1: State, s2: State, s3: State, s4: State, s5: State, s6: State, s7: State)
    requires Step(read, State(None, map[]), l0) == Ok(s0)
    requires Step(read, s0, l1) == Ok(s1) && Step(read, s1, l2) == Ok(s2) && Step(read, s2, l3) == Ok(s3)
    requires Step(read, s3, l4) == Ok(s4) && Step(read, s4, l5) == Ok(s5) && Step(read, s5, l6) == Ok(s6)
    requires Step(read, s6, l7) == Ok(s7)
    ensures Run(read, [l0, l1, l2, l3, l4, l5, l6, l7]) == Ok(s7)
  {
    RunSeven(read, l0, l1, l2, l3, l4, l5, l6, s0, s1, s2, s3, s4, s5, s6);
    SnocEight(l0, l1, l2, l3, l4, l5, l6, l7);
    Then(read, [l0, l1, l2, l3, l4, l5, l6], l7, [l0, l1, l2, l3, l4, l5, l6, l7], s6, s7);
  }

  lemma LinesOfEight(l0: string, l1: string, l2: string, l3: string, l4: string, l5: string, l6: string, l7: string)
    requires IsLine(l0) && IsLine(l1) && IsLine(l2) && IsLine(l3) && IsLine(l4) && IsLine(l5) && IsLine(l6) && IsLine(l7)
    ensures Lines(Strings.Concat([l0, l1, l2, l3, l4, l5, l6, l7])) == [l0, l1, l2, l3, l4, l5, l6, l7]
  {
    LinesOfConcat([l0, l1, l2, l3, l4, l5, l6, l7]);
  }

  /** `pre + name + gap + url` and a newline is one whole line. */
  lemma DefinitionLine(pre: string, name: string, gap: string, url: string)
    requires '\n' !in pre && '\n' !in name && '\n' !in gap && Shellwords.IsPlainWord(url)
    ensures IsLine(pre + (name + gap + url + "\n"))
    ensures pre == [] ==> IsLine(name + gap + url + "\n")
  {
    PlainNoNewline(url);
    LineOf(pre, name + gap + url);
    assert [] + (name + gap + url + "\n") == name + gap + url + "\n";
  }

  lemma EntryLines(u1: string, u2: string, u3: string, u4: string, u5: string, u6: string)
    requires IsOldUrl(u1) && IsOldUrl(u2) && IsOldUrl(u3) && IsOldUrl(u4) && IsOldUrl(u5) && IsOldUrl(u6)
    ensures Lines(Strings.Concat(Entry(u1, u2, u3, u4, u5, u6))) == Entry(u1, u2, u3, u4, u5, u6)
  {
    BlankLine();
    HeaderLines(u1, u2, u3);
    PluginLines(u4, u5, u6);
    LinesOfEight(
      "public/javascripts" + " - " + ("js-common" + " " + u1 + "\n"),
      Blank,
      "vendor" + " - " + ("ant" + "    " + u2 + "\n"),
      Blank,
      "vendor/plugins" + " - " + ("pivotal_core_bundle" + "           " + u3 + "\n"),
      "migrator" + "                      " + u4 + "\n",
      "seleniumrc_fu" + "                 " + u5 + "\n",
      "subversion_helper" + "             " + u6 + "\n");
  }

  lemma HeaderLines(u1: string, u2: string, u3: string)
    requires IsOldUrl(u1) && IsOldUrl(u2) && IsOldUrl(u3)
    ensures IsLine("public/javascripts" + " - " + ("js-common" + " " + u1 + "\n"))
    ensures IsLine("vendor" + " - " + ("ant" + "    " + u2 + "\n"))
    ensures IsLine("vendor/plugins" + " - " + ("pivotal_core_bundle" + "           " + u3 + "\n"))
  {
    DefinitionLine("public/javascripts" + " - ", "js-common", " ", u1);
    DefinitionLine("vendor" + " - ", "ant", "    ", u2);
    DefinitionLine("vendor/plugins" + " - ", "pivotal_core_bundle", "           ", u3);
  }

  lemma PluginLines(u4: string, u5: string, u6: string)
    requires IsOldUrl(u4) && IsOldUrl(u5) && IsOldUrl(u6)
    ensures IsLine("migrator" + "                      " + u4 + "\n")
    ensures IsLine("seleniumrc_fu" + "                 " + u5 + "\n")
    ensures IsLine("subversion_helper" + "             " + u6 + "\n")
  {
    DefinitionLine([], "migrator", "                      ", u4);
    DefinitionLine([], "seleniumrc_fu", "                 ", u5);
    DefinitionLine([], "subversion_helper", "             ", u6);
  }

  lemma JsCommonStep(s: State, u: string)
    requires IsOldUrl(u)
    ensures Step(Reader(Repo), s, "public/javascripts" + " - " + ("js-common" + " " + u + "\n"))
      == Ok(State(Some("public/javascripts"), s.directories[Key(Some("public/javascripts"), "js-common") := u]))
  {
    NoDashNoSeparator("public/javascripts" + " ");
    assert Shellwords.IsPlainWord("js-common") && Shellwords.IsBlank(" ");
    OldHeaderStep(s, "public/javascripts", "js-common", " ", u);
  }

  lemma AntStep(s: State, u: string)
    requires IsOldUrl(u)
    ensures Step(Reader(Repo), s, "vendor" + " - " + ("ant" + "    " + u + "\n"))
      == Ok(State(Some("vendor"), s.directories[Key(Some("vendor"), "ant") := u]))
  {
    NoDashNoSeparator("vendor" + " ");
    assert Shellwords.IsPlainWord("ant") && Shellwords.IsBlank("    ");
    OldHeaderStep(s, "vendor", "ant", "    ", u);
  }

  lemma CoreBundleStep(s: State, u: string)
    requires IsOldUrl(u)
    ensures Step(Reader(Repo), s, "vendor/plugins" + " - " + ("pivotal_core_bundle" + "           " + u + "\n"))
      == Ok(State(Some("vendor/plugins"), s.directories[Key(Some("vendor/plugins"), "pivotal_core_bundle") := u]))
  {
    NoDashNoSeparator("vendor/plugins" + " ");
    CoreBundleWords();
    OldHeaderStep(s, "vendor/plugins", "pivotal_core_bundle", "           ", u);
  }

  lemma CoreBundleWords()
    ensures Shellwords.IsPlainWord("pivotal_core_bundle") && Shellwords.IsBlank("           ")
  {
  }

  lemma PluginStep(s: State, name: string, gap: string, u: string)
    requires name in ["migrator", "seleniumrc_fu", "subversion_helper"]
    requires gap in ["                      ", "                 ", "             "]
    requires IsOldUrl(u)
    ensures Step(Reader(Repo), s, name + gap + u + "\n") == Ok(State(s.currentDir, s.directories[Key(s.currentDir, name) := u]))
  {
    PluginWords(name, gap);
    OldPlainStepNoLead(s, name, gap, u);
  }

  lemma PluginWords(name: string, gap: string)
    requires name in ["migrator", "seleniumrc_fu", "subversion_helper"]
    requires gap in ["                      ", "                 ", "             "]
    ensures Shellwords.IsPlainWord(name) && name != "-" && name[0] != '#'
    ensures Shellwords.IsBlank(gap) && gap != []
  {
  }

  /**
   * The listing of the first test: three headers, two blank lines and three
   * more definitions under the last header. Whatever the six URLs, as long as
   * each is one word with a scheme, each lands under its directory.
   */
  lemma ParseEntry(u1: string, u2: string, u3: string, u4: string, u5: string, u6: string)
    requires IsOldUrl(u1) && IsOldUrl(u2) && IsOldUrl(u3) && IsOldUrl(u4) && IsOldUrl(u5) && IsOldUrl(u6)
    ensures Directories(Reader(Repo), Lines(Strings.Concat(Entry(u1, u2, u3, u4, u5, u6)))) == Ok(map[
      "public/javascripts/js-common" := u1,
      "vendor/ant" := u2,
      "vendor/plugins/pivotal_core_bundle" := u3,
      "vendor/plugins/migrator" := u4,
      "vendor/plugins/seleniumrc_fu" := u5,
      "vendor/plugins/subversion_helper" := u6])
  {
    EntryLines(u1, u2, u3, u4, u5, u6);
    var e := Entry(u1, u2, u3, u4, u5, u6);
    var s0 := State(Some("public/javascripts"), map[Key(Some("public/javascripts"), "js-common") := u1]);
    var s1 := State(Some("vendor"), s0.directories[Key(Some("vendor"), "ant") := u2]);
    var s2 := State(Some("vendor/plugins"), s1.directories[Key(Some("vendor/plugins"), "pivotal_core_bundle") := u3]);
    var s3 := State(Some("vendor/plugins"), s2.directories[Key(Some("vendor/plugins"), "migrator") := u4]);
    var s4 := State(Some("vendor/plugins"), s3.directories[Key(Some("vendor/plugins"), "seleniumrc_fu") := u5]);
    var s5 := State(Some("vendor/plugins"), s4.directories[Key(Some("vendor/plugins"), "subversion_helper") := u6]);
    JsCommonStep(State(None, map[]), u1);
    BlankStep(s0);
    AntStep(s0, u2);
    BlankStep(s1);
    CoreBundleStep(s1, u3);
    PluginStep(s2, "migrator", "                      ", u4);
    PluginStep(s3, "seleniumrc_fu", "                 ", u5);
    PluginStep(s4, "subversion_helper", "             ", u6);
    RunEight(Reader(Repo), e[0], e[1], e[2], e[3], e[4], e[5], e[6], e[7], s0, s0, s1, s1, s2, s3, s4, s5);
    assert [e[0], e[1], e[2], e[3], e[4], e[5], e[6], e[7]] == e;
    EntryKeys(u1, u2, u3, u4, u5, u6);
  }

  lemma EntryKeys(u1: string, u2: string, u3: string, u4: string, u5: string, u6: string)
    ensures map[Key(Some("public/javascripts"), "js-common") := u1][Key(Some("vendor"), "ant") := u2]
        [Key(Some("vendor/plugins"), "pivotal_core_bundle") := u3][Key(Some("vendor/plugins"), "migrator") := u4]
        [Key(Some("vendor/plugins"), "seleniumrc_fu") := u5][Key(Some("vendor/plugins"), "subversion_helper") := u6]
      == map[
      "public/javascripts/js-common" := u1,
      "vendor/ant" := u2,
      "vendor/plugins/pivotal_core_bundle" := u3,
      "vendor/plugins/migrator" := u4,
      "vendor/plugins/seleniumrc_fu" := u5,
      "vendor/plugins/subversion_helper" := u6]
  {
    HeaderKeys();
    PluginKeys();
  }

  lemma HeaderKeys()
    ensures Key(Some("public/javascripts"), "js-common") == "public/javascripts/js-common"
    ensures Key(Some("vendor"), "ant") == "vendor/ant"
    ensures Key(Some("vendor/plugins"), "pivotal_core_bundle") == "vendor/plugins/pivotal_core_bundle"
  {
    JsCommonKey();
    AntKey();
    CoreBundleKey();
  }

  lemma PluginKeys()
    ensures Key(Some("vendor/plugins"), "migrator") == "vendor/plugins/migrator"
    ensures Key(Some("vendor/plugins"), "seleniumrc_fu") == "vendor/plugins/seleniumrc_fu"
    ensures Key(Some("vendor/plugins"), "subversion_helper") == "vendor/plugins/subversion_helper"
  {
    MigratorKey();
    SeleniumKey();
    SubversionHelperKey();
  }

  lemma JsCommonKey()
    ensures Key(Some("public/javascripts"), "js-common") == "public/javascripts/js-common"
  {
    KeyIs("public/javascripts", "js-common", "public/javascripts/js-common");
  }

  lemma AntKey()
    ensures Key(Some("vendor"), "ant") == "vendor/ant"
  {
    KeyIs("vendor", "ant", "vendor/ant");
  }

  lemma CoreBundleKey()
    ensures Key(Some("vendor/plugins"), "pivotal_core_bundle") == "vendor/plugins/pivotal_core_bundle"
  {
    KeyIs("vendor/plugins", "pivotal_core_bundle", "vendor/plugins/pivotal_core_bundle");
  }

  lemma MigratorKey()
    ensures Key(Some("vendor/plugins"), "migrator") == "vendor/plugins/migrator"
  {
    KeyIs("vendor/plugins", "migrator", "vendor/plugins/migrator");
  }

  lemma SeleniumKey()
    ensures Key(Some("vendor/plugins"), "seleniumrc_fu") == "vendor/plugins/seleniumrc_fu"
  {
    KeyIs("vendor/plugins", "seleniumrc_fu", "vendor/plugins/seleniumrc_fu");
  }

  lemma SubversionHelperKey()
    ensures Key(Some("vendor/plugins"), "subversion_helper") == "vendor/plugins/subversion_helper"
  {
    KeyIs("vendor/plugins", "subversion_helper", "vendor/plugins/subversion_helper");
  }

  lemma KeyIs(dir: string, name: string, key: string)
    requires dir + "/" + name == key
    ensures Key(Some(dir), name) == key
  {
  }

  // ----- the listing with a pinned external, for any URLs -----

  /** Spaces that pad a plugin name to the 30 columns of the listing; at least one. */
  function Pad(name: string): (r: string)
    ensures Shellwords.IsBlank(r) && r != []
  {
    seq(if |name| < 30 then 30 - |name| else 1, _ => ' ')
  }

  /** A definition under the current header: two spaces, the padded name, the URL. */
  function PluginLine(name: string, url: string): string {
    "  " + name + Pad(name) + url + "\n"
  }

  function DefinitionLines(names: seq<string>, urls: seq<string>): (r: seq<string>)
    requires |names| == |urls|
    ensures |r| == |names|
    ensures forall i :: 0 <= i < |r| ==> r[i] == PluginLine(names[i], urls[i])
  {
    if names == [] then [] else [PluginLine(names[0], urls[0])] + DefinitionLines(names[1..], urls[1..])
  }

  /** A plugin name as the listing writes it: one plain word. */
  predicate IsPluginName(name: string) {
    Shellwords.IsPlainWord(name) && name != "-"
  }

  /** `m` with the URL of each name stored under the name in `dir`, in order. */
  function StoreAll(m: map<string, string>, dir: Option<string>, names: seq<string>, urls: seq<string>): map<string, string>
    requires |names| == |urls|
    decreases |names|
  {
    if names == [] then m else StoreAll(m[Key(dir, names[0]) := urls[0]], dir, names[1..], urls[1..])
  }

  /** The plugins defined between the `vendor/plugins` header and the pinned one. */
  const Before: seq<string> := ["acts_as_paranoid", "acts_as_tree", "addressbookimporter", "blogs", "bluecloth",
    "cacheable_flash", "enumerations_mixin", "exception_notification", "fixture_utils", "groups",
    "invitations", "message_center", "migrator"]

  /** The plugins defined after the pinned one. */
  const After: seq<string> := ["rspec", "rspec_on_rails", "ruby-guid-0.0.1", "secure_actions", "seleniumrc_fu",
    "storage_service", "subversion_helper", "user", "validates_captcha", "will_paginate", "bookmark_fu"]

  const Plugins: Option<string> := Some("  vendor/plugins")

  /**
   * The listing of the test of frozen externals, line by line: 3 headers, 2
   * blank lines, 25 definitions, one of them pinned with `-r`. The listing
   * keeps two spaces at the start of every line, so they are part of each
   * header's directory. `us` are the 28 URLs, in order.
   */
  function FrozenListing(us: seq<string>): seq<string>
    requires |us| == 28
  {
    TopLines(us[0], us[1], us[2]) + DefinitionLines(Before, us[3..16]) + [PinnedLine(us[16])] + DefinitionLines(After, us[17..])
  }

  function JsunitLine(u: string): string {
    "  public/javascripts/jsunit" + " - " + ("jsunit" + " " + u + "\n")
  }

  function DesertLine(u: string): string {
    "  vendor" + " - " + ("desert" + " " + u + "\n")
  }

  function ActsAsListLine(u: string): string {
    "  vendor/plugins" + " - " + ("acts_as_list" + "                  " + u + "\n")
  }

  /** The definition pinned to a revision: three words, so the parser skips it. */
  function PinnedLine(u: string): string {
    "  " + "pivotal_core_bundle" + "    " + "-r84531" + "       " + u + "\n"
  }

  /** The first five lines: three headers, each with its first definition, and two blank lines. */
  function TopLines(u0: string, u1: string, u2: string): seq<string> {
    [JsunitLine(u0), Blank, DesertLine(u1), Blank, ActsAsListLine(u2)]
  }

  /** The three entries the header lines store. */
  function TopEntries(u0: string, u1: string, u2: string): map<string, string> {
    map["  public/javascripts/jsunit/jsunit" := u0, "  vendor/desert" := u1, "  vendor/plugins/acts_as_list" := u2]
  }

  /** The map the listing gives: the header entries, then each plugin under `  vendor/plugins`, in order. */
  function FrozenEntries(us: seq<string>): map<string, string>
    requires |us| == 28
  {
    StoreAll(StoreAll(TopEntries(us[0], us[1], us[2]), Plugins, Before, us[3..16]), Plugins, After, us[17..])
  }

  predicate AllOldUrls(us: seq<string>) {
    forall i :: 0 <= i < |us| ==> IsOldUrl(us[i])
  }

  predicate AllPluginNames(names: seq<string>) {
    forall i :: 0 <= i < |names| ==> IsPluginName(names[i])
  }

  /** A plugin line is one whole line, and its turn stores the URL under the current header. */
  lemma PluginLineStep(s: State, name: string, url: string)
    requires IsPluginName(name) && IsOldUrl(url)
    ensures IsLine(PluginLine(name, url))
    ensures Step(Reader(Repo), s, PluginLine(name, url)) == Ok(State(s.currentDir, s.directories[Key(s.currentDir, name) := url]))
  {
    assert Shellwords.IsBlank("  ");
    OldPlainStep(s, "  ", name, Pad(name), url);
    PlainNoNewline(name);
    PlainNoNewline(url);
    assert '\n' !in Pad(name);
    LineOf([], "  " + name + Pad(name) + url);
    assert [] + ("  " + name + Pad(name) + url + "\n") == PluginLine(name, url);
  }

  /** The loop over a run of plugin lines stores each URL under the current header, in order. */
  lemma {:induction false} RunPlugins(ls: seq<string>, s: State, names: seq<string>, urls: seq<string>)
    requires |names| == |urls| && AllPluginNames(names) && AllOldUrls(urls)
    requires Run(Reader(Repo), ls) == Ok(s)
    ensures Run(Reader(Repo), ls + DefinitionLines(names, urls))
      == Ok(State(s.currentDir, StoreAll(s.directories, s.currentDir, names, urls)))
    decreases |names|
  {
    if names == [] {
      assert ls + DefinitionLines(names, urls) == ls;
    } else {
      var line := PluginLine(names[0], urls[0]);
      var rest := DefinitionLines(names[1..], urls[1..]);
      assert DefinitionLines(names, urls) == [line] + rest;
      Strings.Assoc(ls, [line], rest);
      var s' := State(s.currentDir, s.directories[Key(s.currentDir, names[0]) := urls[0]]);
      assert IsPluginName(names[0]) && IsOldUrl(urls[0]);
      PluginLineStep(s, names[0], urls[0]);
      Then(Reader(Repo), ls, line, ls + [line], s, s');
      PluginsTail(names, urls);
      RunPlugins(ls + [line], s', names[1..], urls[1..]);
    }
  }

  /** The plugins after the first are plugins too. */
  lemma PluginsTail(names: seq<string>, urls: seq<string>)
    requires names != [] && urls != [] && AllPluginNames(names) && AllOldUrls(urls)
    ensures AllPluginNames(names[1..]) && AllOldUrls(urls[1..])
  {
    forall i | 0 <= i < |names[1..]| ensures IsPluginName(names[1..][i]) {
      assert names[1..][i] == names[i + 1];
    }
    forall i | 0 <= i < |urls[1..]| ensures IsOldUrl(urls[1..][i]) {
      assert urls[1..][i] == urls[i + 1];
    }
  }

  lemma DefinitionLinesAreLines(names: seq<string>, urls: seq<string>)
    requires |names| == |urls| && AllPluginNames(names) && AllOldUrls(urls)
    ensures forall i :: 0 <= i < |names| ==> IsLine(DefinitionLines(names, urls)[i])
  {
    forall i | 0 <= i < |names| ensures IsLine(DefinitionLines(names, urls)[i]) {
      assert IsPluginName(names[i]) && IsOldUrl(urls[i]);
      PluginLineStep(State(None, map[]), names[i], urls[i]);
    }
  }

  lemma BeforeNames()
    ensures AllPluginNames(Before)
  {
    BeforeNames0();
    BeforeNames1();
    BeforeNames2();
    BeforeNames3();
  }

  lemma AfterNames()
    ensures AllPluginNames(After)
  {
    AfterNames0();
    AfterNames1();
    AfterNames2();
    AfterNames3();
  }

  lemma BeforeNames0()
    ensures IsPluginName("acts_as_paranoid") && IsPluginName("acts_as_tree") && IsPluginName("addressbookimporter")
  {
  }

  lemma BeforeNames1()
    ensures IsPluginName("blogs") && IsPluginName("bluecloth") && IsPluginName("cacheable_flash")
  {
  }

  lemma BeforeNames2()
    ensures IsPluginName("enumerations_mixin") && IsPluginName("exception_notification") && IsPluginName("fixture_utils")
  {
  }

  lemma BeforeNames3()
    ensures IsPluginName("groups") && IsPluginName("invitations") && IsPluginName("message_center") && IsPluginName("migrator")
  {
  }

  lemma AfterNames0()
    ensures IsPluginName("rspec") && IsPluginName("rspec_on_rails") && IsPluginName("ruby-guid-0.0.1")
  {
  }

  lemma AfterNames1()
    ensures IsPluginName("secure_actions") && IsPluginName("seleniumrc_fu") && IsPluginName("storage_service")
  {
  }

  lemma AfterNames2()
    ensures IsPluginName("subversion_helper") && IsPluginName("user") && IsPluginName("validates_captcha")
  {
  }

  lemma AfterNames3()
    ensures IsPluginName("will_paginate") && IsPluginName("bookmark_fu")
  {
  }

  lemma UrlsOf(us: seq<string>, i: nat, j: nat)
    requires AllOldUrls(us) && i <= j <= |us|
    ensures AllOldUrls(us[i..j])
  {
    forall k | 0 <= k < j - i ensures IsOldUrl(us[i..j][k]) {
      assert us[i..j][k] == us[i + k];
    }
  }

  /** A definition with three words (here one pinned with `-r`) changes nothing. */
  lemma PinnedStep(s: State, lead: string, w0: string, g0: string, w1: string, g1: string, w2: string)
    requires Shellwords.IsBlank(lead) && Shellwords.IsBlank(g0) && g0 != [] && Shellwords.IsBlank(g1) && g1 != []
    requires Shellwords.IsPlainWord(w0) && Shellwords.IsPlainWord(w1) && Shellwords.IsPlainWord(w2)
    requires w0 != "-" && w1 != "-" && w2 != "-"
    ensures Step(Reader(Repo), s, lead + w0 + g0 + w1 + g1 + w2 + "\n") == Ok(s)
  {
    assert Shellwords.IsBlank("\n");
    BlankNoSeparator(lead);
    AppendWord(lead, w0);
    AppendBlank(lead, w0, g0);
    AppendWord(lead + w0 + g0, w1);
    AppendBlank(lead + w0 + g0, w1, g1);
    AppendWord(lead + w0 + g0 + w1 + g1, w2);
    AppendBlank(lead + w0 + g0 + w1 + g1, w2, "\n");
    var gaps := [g0, g1, "\n"];
    assert Shellwords.Separates(gaps);
    WrongArityIsSkipped(Repo, lead, [w0, w1, w2], gaps, s.currentDir);
    Shellwords.LayoutOfThree(w0, g0, w1, g1, w2, "\n");
    RegroupSeven(lead, w0, g0, w1, g1, w2, "\n");
    PlainStep(Reader(Repo), s, lead + w0 + g0 + w1 + g1 + w2 + "\n", None);
  }

  lemma RegroupSeven(a: string, b: string, c: string, d: string, e: string, f: string, g: string)
    ensures a + (b + c + d + e + f + g) == a + b + c + d + e + f + g
  {
  }

  lemma RunFour(read: LineReader, l0: string, l1: string, l2: string, l3: string, s0: State, s1: State, s2: State, s3: State)
    requires Step(read, State(None, map[]), l0) == Ok(s0)
    requires Step(read, s0, l1) == Ok(s1) && Step(read, s1, l2) == Ok(s2) && Step(read, s2, l3) == Ok(s3)
    ensures Run(read, [l0, l1, l2, l3]) == Ok(s3)
  {
    assert Run(read, []) == Ok(State(None, map[]));
    SnocFour(l0, l1, l2, l3);
    Then(read, [], l0, [l0], State(None, map[]), s0);
    Then(read, [l0], l1, [l0, l1], s0, s1);
    Then(read, [l0, l1], l2, [l0, l1, l2], s1, s2);
    Then(read, [l0, l1, l2], l3, [l0, l1, l2, l3], s2, s3);
  }

  /** A line of plain words and blanks, ended by a newline. */
  lemma WordsLine(body: string)
    requires forall i :: 0 <= i < |body| ==> body[i] != '\n'
    ensures IsLine(body + "\n")
  {
    LineOf([], body);
    assert [] + (body + "\n") == body + "\n";
  }

  lemma JsunitStep(s: State, u: string)
    requires IsOldUrl(u)
    ensures Step(Reader(Repo), s, JsunitLine(u))
      == Ok(State(Some("  public/javascripts/jsunit"), s.directories[Key(Some("  public/javascripts/jsunit"), "jsunit") := u]))
  {
    NoDashNoSeparator("  public/javascripts/jsunit" + " ");
    assert Shellwords.IsPlainWord("jsunit") && Shellwords.IsBlank(" ");
    OldHeaderStep(s, "  public/javascripts/jsunit", "jsunit", " ", u);
  }

  lemma DesertStep(s: State, u: string)
    requires IsOldUrl(u)
    ensures Step(Reader(Repo), s, DesertLine(u))
      == Ok(State(Some("  vendor"), s.directories[Key(Some("  vendor"), "desert") := u]))
  {
    NoDashNoSeparator("  vendor" + " ");
    assert Shellwords.IsPlainWord("desert") && Shellwords.IsBlank(" ");
    OldHeaderStep(s, "  vendor", "desert", " ", u);
  }

  lemma ActsAsListStep(s: State, u: string)
    requires IsOldUrl(u)
    ensures Step(Reader(Repo), s, ActsAsListLine(u))
      == Ok(State(Plugins, s.directories[Key(Plugins, "acts_as_list") := u]))
  {
    NoDashNoSeparator("  vendor/plugins" + " ");
    assert Shellwords.IsPlainWord("acts_as_list") && Shellwords.IsBlank("                  ");
    OldHeaderStep(s, "  vendor/plugins", "acts_as_list", "                  ", u);
  }

  lemma CoreBundlePinnedStep(s: State, u: string)
    requires IsOldUrl(u)
    ensures Step(Reader(Repo), s, PinnedLine(u)) == Ok(s)
  {
    PinnedWords();
    NoColonNoScheme("-");
    PinnedStep(s, "  ", "pivotal_core_bundle", "    ", "-r84531", "       ", u);
  }

  lemma PinnedWords()
    ensures Shellwords.IsBlank("  ") && Shellwords.IsPlainWord("pivotal_core_bundle") && Shellwords.IsBlank("    ")
    ensures Shellwords.IsPlainWord("-r84531") && Shellwords.IsBlank("       ")
  {
  }

  /** The five lines of headers and blanks at the top of the listing. */
  lemma RunHeaders(u0: string, u1: string, u2: string)
    requires IsOldUrl(u0) && IsOldUrl(u1) && IsOldUrl(u2)
    ensures Run(Reader(Repo), TopLines(u0, u1, u2)) == Ok(State(Plugins, TopEntries(u0, u1, u2)))
  {
    var four := [JsunitLine(u0), Blank, DesertLine(u1), Blank];
    assert TopLines(u0, u1, u2) == four + [ActsAsListLine(u2)];
    var s0 := State(Some("  public/javascripts/jsunit"), map[Key(Some("  public/javascripts/jsunit"), "jsunit") := u0]);
    var s1 := State(Some("  vendor"), s0.directories[Key(Some("  vendor"), "desert") := u1]);
    var s2 := State(Plugins, s1.directories[Key(Plugins, "acts_as_list") := u2]);
    JsunitStep(State(None, map[]), u0);
    BlankStep(s0);
    DesertStep(s0, u1);
    BlankStep(s1);
    ActsAsListStep(s1, u2);
    RunFour(Reader(Repo), JsunitLine(u0), Blank, DesertLine(u1), Blank, s0, s0, s1, s1);
    Then(Reader(Repo), four, ActsAsListLine(u2), TopLines(u0, u1, u2), s1, s2);
    TopKeys(u0, u1, u2);
  }

  lemma TopKeys(u0: string, u1: string, u2: string)
    ensures map[Key(Some("  public/javascripts/jsunit"), "jsunit") := u0][Key(Some("  vendor"), "desert") := u1]
      [Key(Plugins, "acts_as_list") := u2] == TopEntries(u0, u1, u2)
  {
    JsunitKey();
    DesertKey();
    ActsAsListKey();
  }

  lemma JsunitKey()
    ensures Key(Some("  public/javascripts/jsunit"), "jsunit") == "  public/javascripts/jsunit/jsunit"
  {
    KeyIs("  public/javascripts/jsunit", "jsunit", "  public/javascripts/jsunit/jsunit");
  }

  lemma DesertKey()
    ensures Key(Some("  vendor"), "desert") == "  vendor/desert"
  {
    KeyIs("  vendor", "desert", "  vendor/desert");
  }

  lemma ActsAsListKey()
    ensures Key(Some("  vendor/plugins"), "acts_as_list") == "  vendor/plugins/acts_as_list"
  {
    KeyIs("  vendor/plugins", "acts_as_list", "  vendor/plugins/acts_as_list");
  }

  lemma TopLinesAreLines(u0: string, u1: string, u2: string)
    requires IsOldUrl(u0) && IsOldUrl(u1) && IsOldUrl(u2)
    ensures forall i :: 0 <= i < 5 ==> IsLine(TopLines(u0, u1, u2)[i])
  {
    JsunitIsLine(u0);
    DesertIsLine(u1);
    ActsAsListIsLine(u2);
    BlankLine();
  }

  lemma JsunitIsLine(u: string)
    requires IsOldUrl(u)
    ensures IsLine(JsunitLine(u))
  {
    DefinitionLine("  public/javascripts/jsunit" + " - ", "jsunit", " ", u);
  }

  lemma DesertIsLine(u: string)
    requires IsOldUrl(u)
    ensures IsLine(DesertLine(u))
  {
    DefinitionLine("  vendor" + " - ", "desert", " ", u);
  }

  lemma ActsAsListIsLine(u: string)
    requires IsOldUrl(u)
    ensures IsLine(ActsAsListLine(u))
  {
    DefinitionLine("  vendor/plugins" + " - ", "acts_as_list", "                  ", u);
  }

  lemma PinnedIsLine(u: string)
    requires IsOldUrl(u)
    ensures IsLine(PinnedLine(u))
  {
    PlainNoNewline(u);
    WordsLine("  " + "pivotal_core_bundle" + "    " + "-r84531" + "       " + u);
  }

  /** The URLs of the plugins before and after the pinned one. */
  lemma PluginUrls(us: seq<string>)
    requires |us| == 28 && AllOldUrls(us)
    ensures AllOldUrls(us[3..16]) && AllOldUrls(us[17..])
    ensures IsOldUrl(us[0]) && IsOldUrl(us[1]) && IsOldUrl(us[2]) && IsOldUrl(us[16])
  {
    UrlsOf(us, 3, 16);
    UrlsOf(us, 17, 28);
    assert us[17..] == us[17..28];
  }

  /** The listing is cut into exactly its 30 lines. */
  lemma FrozenLines(us: seq<string>)
    requires |us| == 28 && AllOldUrls(us)
    ensures Lines(Strings.Concat(FrozenListing(us))) == FrozenListing(us)
  {
    var head := TopLines(us[0], us[1], us[2]);
    var before := DefinitionLines(Before, us[3..16]);
    var after := DefinitionLines(After, us[17..]);
    var f := FrozenListing(us);
    PluginUrls(us);
    BeforeNames();
    AfterNames();
    TopLinesAreLines(us[0], us[1], us[2]);
    PinnedIsLine(us[16]);
    DefinitionLinesAreLines(Before, us[3..16]);
    DefinitionLinesAreLines(After, us[17..]);
    assert f == head + before + [PinnedLine(us[16])] + after;
    forall i | 0 <= i < |f| ensures IsLine(f[i]) {
      if i < 5 { assert f[i] == head[i]; }
      else if i < 18 { assert f[i] == before[i - 5]; }
      else if i == 18 { assert f[i] == PinnedLine(us[16]); }
      else { assert f[i] == after[i - 19]; }
    }
    LinesOfConcat(f);
  }

  /** The map the listing gives: the header entries, then each plugin in order; the pinned line stores nothing. */
  lemma ParseFrozen(us: seq<string>)
    requires |us| == 28 && AllOldUrls(us)
    ensures Directories(Reader(Repo), Lines(Strings.Concat(FrozenListing(us)))) == Ok(FrozenEntries(us))
  {
    var head := TopLines(us[0], us[1], us[2]);
    var before := DefinitionLines(Before, us[3..16]);
    var pinned := PinnedLine(us[16]);
    var after := DefinitionLines(After, us[17..]);
    FrozenLines(us);
    PluginUrls(us);
    BeforeNames();
    AfterNames();
    RunHeaders(us[0], us[1], us[2]);
    RunPlugins(head, State(Plugins, TopEntries(us[0], us[1], us[2])), Before, us[3..16]);
    var s := State(Plugins, StoreAll(TopEntries(us[0], us[1], us[2]), Plugins, Before, us[3..16]));
    CoreBundlePinnedStep(s, us[16]);
    Then(Reader(Repo), head + before, pinned, head + before + [pinned], s, s);
    RunPlugins(head + before + [pinned], s, After, us[17..]);
  }

  /** A key no name stores under is not added. */
  lemma {:induction false} NotStored(m: map<string, string>, dir: Option<string>, names: seq<string>, urls: seq<string>, k: string)
    requires |names| == |urls| && k !in m
    requires forall i :: 0 <= i < |names| ==> Key(dir, names[i]) != k
    ensures k !in StoreAll(m, dir, names, urls)
    decreases |names|
  {
    if names != [] {
      assert Key(dir, names[0]) != k;
      forall i | 0 <= i < |names[1..]| ensures Key(dir, names[1..][i]) != k {
        assert names[1..][i] == names[i + 1];
      }
      NotStored(m[Key(dir, names[0]) := urls[0]], dir, names[1..], urls[1..], k);
    }
  }

  /** A key the header lines and no plugin store under is absent from the listing's map. */
  lemma NotInFrozen(us: seq<string>, k: string)
    requires |us| == 28 && k !in TopEntries(us[0], us[1], us[2])
    requires forall i :: 0 <= i < |Before| ==> Key(Plugins, Before[i]) != k
    requires forall i :: 0 <= i < |After| ==> Key(Plugins, After[i]) != k
    ensures k !in FrozenEntries(us)
  {
    NotStored(TopEntries(us[0], us[1], us[2]), Plugins, Before, us[3..16], k);
    NotStored(StoreAll(TopEntries(us[0], us[1], us[2]), Plugins, Before, us[3..16]), Plugins, After, us[17..], k);
  }

  /**
   * What the test looks up is absent, and so is the pinned external under its
   * real key: the parse succeeds and stores nothing for the pinned line.
   */
  lemma FrozenIsNotListed(us: seq<string>)
    requires |us| == 28 && AllOldUrls(us)
    ensures var r := Directories(Reader(Repo), Lines(Strings.Concat(FrozenListing(us))));
      && r.Ok?
      && "vendor/plugins/pivotal_core_bundle" !in r.value
      && "  vendor/plugins/pivotal_core_bundle" !in r.value
  {
    ParseFrozen(us);
    FrozenKeysDiffer(us[0], us[1], us[2]);
    NotPinned(Before);
    NotPinned(After);
    NotInFrozen(us, "  vendor/plugins/pivotal_core_bundle");
    UnderPlugins(Before, "vendor/plugins/pivotal_core_bundle");
    UnderPlugins(After, "vendor/plugins/pivotal_core_bundle");
    NotInFrozen(us, "vendor/plugins/pivotal_core_bundle");
  }

  lemma FrozenKeysDiffer(u0: string, u1: string, u2: string)
    ensures "vendor/plugins/pivotal_core_bundle" !in TopEntries(u0, u1, u2)
    ensures "  vendor/plugins/pivotal_core_bundle" !in TopEntries(u0, u1, u2)
  {
    assert |"vendor/plugins/pivotal_core_bundle"| == 34 && |"  vendor/plugins/pivotal_core_bundle"| == 36;
    assert |"  public/javascripts/jsunit/jsunit"| == 34 && |"  vendor/desert"| == 15 && |"  vendor/plugins/acts_as_list"| == 29;
    assert "  public/javascripts/jsunit/jsunit"[0] != "vendor/plugins/pivotal_core_bundle"[0];
  }

  /** No plugin but the pinned one is called `pivotal_core_bundle`, so none stores under its key. */
  lemma NotPinned(names: seq<string>)
    requires names == Before || names == After
    ensures forall i :: 0 <= i < |names| ==> Key(Plugins, names[i]) != "  vendor/plugins/pivotal_core_bundle"
  {
    assert "pivotal_core_bundle" !in names;
    PinnedKey();
    forall i | 0 <= i < |names| ensures Key(Plugins, names[i]) != "  vendor/plugins/pivotal_core_bundle" {
      assert names[i] in names;
      KeyInjective(Plugins, names[i], "pivotal_core_bundle");
    }
  }

  lemma PinnedKey()
    ensures Key(Some("  vendor/plugins"), "pivotal_core_bundle") == "  vendor/plugins/pivotal_core_bundle"
  {
    KeyIs("  vendor/plugins", "pivotal_core_bundle", "  vendor/plugins/pivotal_core_bundle");
  }

  /** Every key under `  vendor/plugins` starts with a space. */
  lemma UnderPlugins(names: seq<string>, k: string)
    requires k != [] && k[0] != ' '
    ensures forall i :: 0 <= i < |names| ==> Key(Plugins, names[i]) != k
  {
    forall i | 0 <= i < |names| ensures Key(Plugins, names[i]) != k {
      var key := Key(Plugins, names[i]);
      assert "  vendor/plugins" <= key;
      assert key[0] == ' ';
    }
  }
}
