# Subversion externals parser

This project models `SourceControl::Subversion::PropgetParser` from
cruisecontrol.rb in Dafny. The parser reads the listing printed by
`svn propget -R svn:externals`. It maps `"<property directory>/<checkout directory>"`
to the absolute URL of each external.

The model has six modules:

- `Wrappers` holds `Option` and `Result`.
- `Strings` holds `IndexOf` and `Concat`, which `String#lines` and the URI code use.
- `Shellwords` stands in for Ruby's `Shellwords.shellsplit`. Words are separated by runs of whitespace. Single quotes, double quotes and backslash escapes are honoured, and an unclosed quote is an error. Inside double quotes a backslash escapes only `$`, a backquote, `"`, `\` and a newline, and is kept before any other character. This is the POSIX rule that current Ruby versions follow; older Ruby versions unescaped every character inside double quotes.
- `Uri` stands in for the parts of Ruby's `URI` the parser uses:
  - the scheme grammar of section 3.1 of RFC 3986;
  - cutting a reference into scheme, authority and path, and putting it back together;
  - reference resolution (`URI.join`) as in section 5.2.2 of RFC 3986, with path merging (section 5.2.3) and dot-segment removal (section 5.2.4);
  - the `scheme://server` prefix of a URL.
- `PropgetParser` is the parser itself:
  - `ResolveExternalUrl` is `resolve_external_url`;
  - `ParseLine` is `parse_line`;
  - `SplitHeader` is the `" - "` split of `parse`;
  - `Lines` is `String#lines`;
  - the method `Parse` is `parse`. It is a loop over the lines that updates `currentDir` and `directories`, proved equal to the fold `Run`/`Directories`. The lemmas about `parse`'s result are stated on that fold.
- `PropgetParserExamples` restates the parser's unit tests as lemmas over the stubbed repository `svn://example.com/var/svn/proj/trunk/lib`, whose root is `svn://example.com/var/svn/proj`.

The working copy is a `Repository` value holding the repository URL and the repository root. In the Ruby code these are `@subversion.repository` and `@subversion.info.repository_root`.

The Ruby code rescues none of the exceptions raised while parsing:

- `shellsplit` raises on an unclosed quote;
- `nil + '/'` raises on a `../` URL before any header;
- `URI.join` raises when there is no absolute URL to resolve against;
- `nil + ':'` raises on a `//` URL when the repository URL has no scheme;
- `nil + url` raises on a `/` URL when the repository URL has no `scheme://server`.

So a bad line is not skipped: it aborts `parse`. The model returns an `Err` for each of these cases, and `FailsOnBadLine` and `FailsOnFirstBadLine` state that the first bad line decides the outcome.

## Model

| member | source | states |
|---|---|---|
| `Shellwords.Split` | lib/source_control/subversion/propget_parser.rb:51 | Splitting fails only on a line that holds a quote character; `Shellwords.SplitFailsOnUnclosedQuote` states exactly which lines fail. |
| `Shellwords.SplitFailsOnUnclosedQuote` | lib/source_control/subversion/propget_parser.rb:51 | Splitting fails exactly when the line leaves a single or double quote open, reading backslash escapes outside quotes and inside double quotes, and not inside single quotes. |
| `Shellwords.UnclosedSingleQuote` | lib/source_control/subversion/propget_parser.rb:51 | A line that opens a single quote and never closes it fails to split. |
| `Shellwords.SplitPlainThenQuoted` | lib/source_control/subversion/propget_parser.rb:51 | A plain word followed by a double-quoted word, with any whitespace around them, splits into the plain word and the quoted text without its quotes, spaces included. |
| `Shellwords.Word` | lib/source_control/subversion/propget_parser.rb:51 | A word leaves behind a suffix of the input that is empty or starts with whitespace, and it always consumes something when the input starts with a non-space character. A failure needs a quote character. |
| `Shellwords.SingleQuotedWord` | lib/source_control/subversion/propget_parser.rb:51 | A single-quoted word is its text without the quotes, taken literally, backslashes included, and the rest of the line is left over. |
| `Shellwords.DoubleQuotedWord` | lib/source_control/subversion/propget_parser.rb:51 | A double-quoted word without backslashes is its text without the quotes, and the rest of the line is left over. |
| `Shellwords.EscapedCharacter` | lib/source_control/subversion/propget_parser.rb:51 | Outside quotes a backslash followed by a character other than a newline gives that character alone. |
| `Shellwords.EscapedSpaceWord` | lib/source_control/subversion/propget_parser.rb:51 | Two plain words joined by a backslash-escaped space are one word holding a space. |
| `Shellwords.SplitLayout` | lib/source_control/subversion/propget_parser.rb:51 | Plain words laid out with any whitespace before, between and after them split back into exactly those words. |
| `Uri.Scheme` | lib/source_control/subversion/propget_parser.rb:59-64 | The scheme is the RFC 3986 scheme name before the first ':'. It is found exactly when such a name followed by ':' starts the text. |
| `Uri.SchemeOfPrefixed` | lib/source_control/subversion/propget_parser.rb:82 | The text `scheme + ":" + rest` has scheme `scheme`, whatever `rest` is. |
| `Uri.Parse` | lib/source_control/subversion/propget_parser.rb:60 | Cutting a text into scheme, authority and path gives well-formed parts that recompose to the same text. |
| `Uri.ParseRecompose` | lib/source_control/subversion/propget_parser.rb:60 | Parsing a recomposed well-formed reference gives the reference back. This is the other half of the round trip with `Uri.Parse`. |
| `Uri.OriginThenPath` | lib/source_control/subversion/propget_parser.rb:83-86 | An absolute path put after a URL's `scheme://server` parses back to that scheme, that server and that path, so the origin is unchanged. |
| `Uri.Join` | lib/source_control/subversion/propget_parser.rb:78-80 | The join fails exactly when neither the base nor the reference has a scheme. A reference with a scheme is returned as it is. |
| `Uri.PathReferenceParse` | lib/source_control/subversion/propget_parser.rb:78-80 | A reference with no scheme and no `//` is all path. |
| `Uri.JoinPath` | lib/source_control/subversion/propget_parser.rb:78-80 | A path reference joined to a URL with a server succeeds. The result stays on the same server, and its path is absolute and free of "." and ".." segments. |
| `Uri.JoinUnderDirectory` | lib/source_control/subversion/propget_parser.rb:78 | A relative path joined to a URL that ends in a directory gives the server followed by the dot-free form of directory plus path. |
| `Uri.JoinEmpty` | lib/source_control/subversion/propget_parser.rb:80 | Joining an empty reference to an absolute URL gives the URL back. |
| `Uri.RemoveDotSegmentsAbsolute` | lib/source_control/subversion/propget_parser.rb:78-80 | Dot-segment removal keeps an absolute path absolute, and its output is made of kept segments only. |
| `Uri.RemoveDotsThrough` | lib/source_control/subversion/propget_parser.rb:78-80 | Segments that are neither "." nor ".." pass through the loop of section 5.2.4 of RFC 3986 unchanged and in order. |
| `Uri.RemoveDotSegmentsOfSegments` | lib/source_control/subversion/propget_parser.rb:78-80 | A path made only of kept segments is left unchanged by dot-segment removal. |
| `Uri.RemoveDotSegmentsIdempotent` | lib/source_control/subversion/propget_parser.rb:78-80 | Removing dot segments twice gives the same path as removing them once. |
| `Uri.RemoveDotSegments` | lib/source_control/subversion/propget_parser.rb:78-80 | An absolute path stays absolute, and an absolute path that ends in '/' still ends in '/' after dot segments are removed. |
| `Uri.Resolve` | lib/source_control/subversion/propget_parser.rb:78-80 | Resolving a scheme-less reference keeps the base's scheme. A reference with an authority gives the path and the host. Its userinfo and its port replace the base's only when it has them, as `URI#merge` sets each part only when the reference holds it. An empty reference gives the base back. Otherwise the authority is kept, and under a base with a server the path is absolute and dot-free. |
| `Uri.ServerOf` | lib/source_control/subversion/propget_parser.rb:78-80 | An authority is cut into userinfo (before the first '@'), host and port (the digits after a final ':'). The userinfo holds no '@', a port is one digit or more, and putting the parts back together gives the authority, less a final ':' with no digits after it. |
| `Uri.ServerRoundTrip` | lib/source_control/subversion/propget_parser.rb:78-80 | Cutting the text of well-formed parts gives the same parts back. This is the other half of the round trip with `Uri.ServerOf`. |
| `Uri.JoinServer` | lib/source_control/subversion/propget_parser.rb:78-80 | A reference `//server/path` joined to `scheme://server/path` takes the reference's host and path. It takes the reference's userinfo and port where it has them and keeps the base's otherwise. |
| `Uri.Origin` | lib/source_control/subversion/propget_parser.rb:83-86 | The `scheme://server` prefix exists exactly when the URL has a scheme and a non-empty server. It is the scheme, "://" and the server, and the path after it is empty or starts with '/'. |
| `PropgetParser.ShorthandOf` | lib/source_control/subversion/propget_parser.rb:77-87 | Each URL falls in exactly one branch: `../`, `^/`, `//`, then `/`, tried in that order. Only `//` and `/` overlap, and `//` wins. A URL with none of these prefixes is taken verbatim. |
| `PropgetParser.ResolveExternalUrl` | lib/source_control/subversion/propget_parser.rb:76-90 | The cases are:<br>- a verbatim URL comes back unchanged and never fails;<br>- `../` with no property directory fails;<br>- `//` succeeds exactly when the repository has a scheme, and then gives that scheme, ':' and the input;<br>- `/` succeeds exactly when the repository has a `scheme://server`, keeps it and has the input as its path. |
| `PropgetParser.ParentRelativeStaysOnServer` | lib/source_control/subversion/propget_parser.rb:77-78 | A `../` URL under a repository with a server resolves on that server, to an absolute path with no "." or ".." left. |
| `PropgetParser.ParentRelativeValue` | lib/source_control/subversion/propget_parser.rb:77-78 | A `../` URL under property directory `t` resolves to the repository's server followed by the dot-free join of the repository path, '/', `t`, '/' and the URL. |
| `PropgetParser.RootRelativeValue` | lib/source_control/subversion/propget_parser.rb:79-80 | A `^/` URL followed by a relative path resolves to the root's server followed by the dot-free form of the root path, '/' and the URL minus its `^/`. |
| `PropgetParser.RootItself` | lib/source_control/subversion/propget_parser.rb:79-80 | `^/` alone resolves to the repository root followed by '/'. |
| `PropgetParser.RootRelativeStaysOnServer` | lib/source_control/subversion/propget_parser.rb:79-80 | A `^/` URL followed by a path resolves on the root's server, to an absolute path with no "." or ".." left. |
| `PropgetParser.JoinUnderRoot` | lib/source_control/subversion/propget_parser.rb:80 | A path joined under the repository root plus '/' stays on the root's server and is free of dot segments. |
| `PropgetParser.ParseLine` | lib/source_control/subversion/propget_parser.rb:46-73 | The line is read as follows:<br>- a line starting with '#' defines nothing;<br>- any other line fails with an unmatched quote exactly when it does not split;<br>- a line that splits into other than two words defines nothing;<br>- a definition comes from a line that splits into exactly two words, and its directory is one of them. |
| `PropgetParser.UnclosedQuoteAborts` | lib/source_control/subversion/propget_parser.rb:46-51 | A line that is not a comment fails with an unmatched quote exactly when it leaves a quote open. |
| `PropgetParser.QuotedDirectory` | lib/source_control/subversion/propget_parser.rb:46-72 | A new-format line whose directory is double-quoted and holds spaces defines the resolved URL checked out to the unquoted directory, or fails with the resolution's error. |
| `PropgetParser.NotComment` | lib/source_control/subversion/propget_parser.rb:47 | A line with leading whitespace, or whose first word does not start with '#', is not a comment. |
| `PropgetParser.WrongArityIsSkipped` | lib/source_control/subversion/propget_parser.rb:51-57 | A line of plain words that are not exactly two defines nothing. This covers blank lines and `-r N` pins. |
| `PropgetParser.OldFormat` | lib/source_control/subversion/propget_parser.rb:59-68 | `<dir> <url>` with a scheme on the URL, with any whitespace around the words, defines `url` checked out to `dir`, both unchanged. |
| `PropgetParser.NewFormat` | lib/source_control/subversion/propget_parser.rb:59-71 | `<url> <dir>` with no scheme on `dir` defines the resolved URL checked out to `dir` unchanged. A resolution failure aborts with that error. |
| `PropgetParser.FindSeparator` | lib/source_control/subversion/propget_parser.rb:25 | The result is the first position of " - ", or none when the line has no " - ". |
| `PropgetParser.Fields` | lib/source_control/subversion/propget_parser.rb:25 | The fields, put back together with " - ", give the line. No field holds " - ". The first field is the text before the first " - ", and the second runs from there to the next " - " or to the end. |
| `PropgetParser.RubySplit` | lib/source_control/subversion/propget_parser.rb:25 | `String#split` with " - " gives fields without " - " whose last field is non-empty. Put back together they are a prefix of the line, and with two or more fields the first is the text before the first " - " and the second runs to the next " - " or to the end. |
| `PropgetParser.SplitHeader` | lib/source_control/subversion/propget_parser.rb:25-29 | A line without " - " is no header and is parsed whole. A header's directory is the text before the first " - ". The definition is the text after it, up to the second " - " or to the end when there is none. The directory, " - " and the definition start the line, neither part holding " - ". |
| `PropgetParser.DropTrailingEmpty` | lib/source_control/subversion/propget_parser.rb:25 | The result is a prefix of the fields that removes only empty fields and ends with a non-empty one. |
| `PropgetParser.NoSeparatorNoHeader` | lib/source_control/subversion/propget_parser.rb:25-29 | A line without " - " names no directory and is parsed whole. |
| `PropgetParser.HeaderLine` | lib/source_control/subversion/propget_parser.rb:25-28 | `dir - rest` with a single " - " and a non-empty `rest` names `dir` and leaves `rest` to parse. |
| `PropgetParser.TrailingSeparatorNoHeader` | lib/source_control/subversion/propget_parser.rb:25-26 | A line ending in " - " is no header, because the empty last field is dropped. |
| `PropgetParser.SecondSeparatorDropped` | lib/source_control/subversion/propget_parser.rb:25-28 | The text after a second " - " is not part of the definition. |
| `PropgetParser.Lines` | lib/source_control/subversion/propget_parser.rb:20 | The lines put back together give the text. Every line but the last ends with its only newline. |
| `PropgetParser.LinesOfConcat` | lib/source_control/subversion/propget_parser.rb:20 | Text made of whole lines is cut back into exactly those lines. |
| `PropgetParser.HeaderStep` | lib/source_control/subversion/propget_parser.rb:25-34 | A `dir - rest` line makes `dir` the current directory and stores the definition in `rest` under `dir/<directory>`. |
| `PropgetParser.PlainStep` | lib/source_control/subversion/propget_parser.rb:25-34 | A line without " - " keeps the current directory and stores its definition under it. |
| `PropgetParser.Key` | lib/source_control/subversion/propget_parser.rb:33 | The key is `/directory` with no current directory. Otherwise it starts with the current directory, and it always ends with '/' and the directory. |
| `PropgetParser.KeyInjective` | lib/source_control/subversion/propget_parser.rb:33 | Under one current directory, two directories give the same key exactly when they are equal. |
| `PropgetParser.Step` | lib/source_control/subversion/propget_parser.rb:25-34 | A turn of the loop that succeeds makes the header's directory current, or keeps the current one. It keeps every key and adds at most one. |
| `PropgetParser.Run` | lib/source_control/subversion/propget_parser.rb:24-35 | The loop stores at most one entry per line. |
| `PropgetParser.Directories` | lib/source_control/subversion/propget_parser.rb:19-37 | When `parse` succeeds, it returns at most one entry per line. |
| `PropgetParser.RunStopsAtError` | lib/source_control/subversion/propget_parser.rb:24-35 | Once a line has raised, the lines after it change nothing. |
| `PropgetParser.CurrentDirIsLastHeader` | lib/source_control/subversion/propget_parser.rb:24-29 | After the loop, the current directory is the one named by the latest header, or none before any header. |
| `PropgetParser.LastTurn` | lib/source_control/subversion/propget_parser.rb:24-34 | The last line either aborts with its own error, or leaves the map unchanged when it defines nothing, or adds exactly its own key and URL. |
| `PropgetParser.DirectoriesStep` | lib/source_control/subversion/propget_parser.rb:31-34 | A successful parse of n+1 lines is the parse of the first n lines with the last line's entry stored, if it has one. |
| `PropgetParser.FailsOnBadLine` | lib/source_control/subversion/propget_parser.rb:24-35 | The loop, and so `parse`, fails exactly when some line, read under the header in force at it, raises. |
| `PropgetParser.FailsOnFirstBadLine` | lib/source_control/subversion/propget_parser.rb:24-35 | The error of the first line that raises is the error of the whole parse. |
| `PropgetParser.KeysAreStored` | lib/source_control/subversion/propget_parser.rb:31-34 | A key is in the result exactly when some line defines an external under it. Lines that define nothing add nothing. |
| `PropgetParser.LastWriteWins` | lib/source_control/subversion/propget_parser.rb:32-34 | A key maps to the URL of the last line that stores under it, so a later duplicate overwrites an earlier one. |
| `PropgetParser.Turn` | lib/source_control/subversion/propget_parser.rb:24-34 | One turn of the loop body is one step of the fold: it aborts, keeps the map, or stores one entry under `current_dir/directory`. |
| `PropgetParser.Parse` | lib/source_control/subversion/propget_parser.rb:19-37 | The loop over the lines of the input returns exactly the fold's result: the map, or the error of the first line that raises. |
| `PropgetParserExamples.SkipsThreeWords` | lib/source_control/subversion/propget_parser.rb:53-57 | Any line of three plain words defines nothing. |
| `PropgetParserExamples.ParseLineWithComment` | test/unit/source_control/subversion/propget_parser_test.rb:97-99 | `# Comment` defines nothing. |
| `PropgetParserExamples.ParseLineWithHyphenR` | test/unit/source_control/subversion/propget_parser_test.rb:101-105 | `-r25 http://example.com/repo ext` defines nothing, under any property directory. |
| `PropgetParserExamples.ParseLineWith14Format` | test/unit/source_control/subversion/propget_parser_test.rb:107-110 | `foo http://example.com/svn/foo` defines that URL checked out to `foo`. |
| `PropgetParserExamples.ParseLineWith15Format` | test/unit/source_control/subversion/propget_parser_test.rb:112-115 | `../../ext some_dir` under `prop_dir` defines `svn://example.com/var/svn/proj/trunk/ext` checked out to `some_dir`. |
| `PropgetParserExamples.ResolveWithParentDirectory` | test/unit/source_control/subversion/propget_parser_test.rb:117-120 | `../../ext` under `target_dir` resolves to `svn://example.com/var/svn/proj/trunk/ext`. |
| `PropgetParserExamples.ResolveWithRepositoryRoot` | test/unit/source_control/subversion/propget_parser_test.rb:122-125 | `^/ext` resolves to `svn://example.com/var/svn/proj/ext` under any property directory. |
| `PropgetParserExamples.ResolveWithSameScheme` | test/unit/source_control/subversion/propget_parser_test.rb:127-130 | `//example.net/ext` resolves to `svn://example.net/ext`. |
| `PropgetParserExamples.ResolveKeepsPort` | lib/source_control/subversion/propget_parser.rb:78-79 | `^///other/path` under a root `svn://host:port/path` gives `svn://other:port/path`: the root's port stays when the external names none, as for `^///mirror.net/ext` under `svn://example.com:3690/var/svn/proj`. |
| `PropgetParserExamples.ResolveWithServerRoot` | test/unit/source_control/subversion/propget_parser_test.rb:132-135 | `/ext` resolves to `svn://example.com/ext`. |
| `PropgetParserExamples.ParseWith15Entries` | test/unit/source_control/subversion/propget_parser_test.rb:79-95 | The listing that mixes both formats, with a comment and blank lines, parses to exactly the four entries the test expects. |
| `PropgetParserExamples.ParseEntry` | test/unit/source_control/subversion/propget_parser_test.rb:19-38 | The listing with three headers and old-format lines parses to exactly the six keys the test expects, each mapped to its own URL. |
| `PropgetParserExamples.ParseFrozen` | test/unit/source_control/subversion/propget_parser_test.rb:40-77 | The whole 30-line frozen listing, for any URLs, parses to the three header entries and then each `vendor/plugins` line's entry, in order. The `-r` pinned line adds nothing, and every key keeps the listing's two leading spaces. |
| `PropgetParserExamples.FrozenIsNotListed` | test/unit/source_control/subversion/propget_parser_test.rb:40-77 | The parse of the whole frozen listing succeeds, and the pinned external is absent from the result, both under the key the test looks up and under the key with the listing's leading spaces. |

## Left out

- `svn info` and the working copy are not modelled. The repository URL and root are the two fields of `Repository`.
- `PropgetParser.ParseLine`: the old format is recognised by a leading RFC 3986 scheme name and ':'. A second word that starts that way but that Ruby's `URI.parse` rejects with `URI::InvalidURIError` (a space inside quotes, say) is old format in the model. In Ruby it is new format. Percent-escaping and the rest of the URI grammar are not modelled.
- `Uri.Join`: queries and fragments are not modelled, and neither is Ruby raising `URI::InvalidURIError` on malformed references.
- `Uri.Join`: the path is merged and cleaned as in sections 5.2.3 and 5.2.4 of RFC 3986. Ruby's `URI.join` follows RFC 2396 instead: it keeps "." segments of the base path, deletes "." only in the reference, and keeps ".." segments that climb above the root, writing the rest as it is. The model drops those ".." and "." segments.
- `Uri.Origin`: the `scheme://server` prefix is the scheme, "://" and the whole non-empty authority up to the next '/'. Ruby matches `URI::PATTERN::SERVER`, whose host must be a hostname, an IPv4 or an IPv6 address. A server such as `_host` or `1host`, a user part with an empty host, or characters outside that pattern (such as '?' or '#') make Ruby raise or take a shorter prefix, where the model takes the whole authority.
- Schemes and hosts are kept as written. No case is folded.
- `Uri.Resolve`: ports are kept as written. Ruby reads a port as an integer and leaves out a scheme's default port when it writes the URL back, so `:080` or `http://host:80` come out shorter in Ruby than in the model.
- `Uri.ServerOf`: an authority is cut at its first '@' and at a final ':' followed by digits. Ruby's parser instead rejects an authority that its server grammar does not match, such as one with two '@' or a host with a ':' outside brackets.
- `PropgetParser.Parse`: the result is a `map`, so the insertion order of Ruby's `Hash` is not captured.
- `PropgetParser.Parse`: `lines` may be a `String`, cut with `String#lines`, or already a list of lines. Other enumerables are not modelled.
- `PropgetParserExamples.ParseEntry`: the URLs of the listing are parameters, namely any plain word with a scheme. The test's own long URLs are instances of these.
- `PropgetParserExamples.ParseFrozen`: the URLs of the listing are parameters, namely any plain word with a scheme. The test's own long URLs are instances of these.
- lib/source_control/abstract_revision.rb is not part of this model. Its methods only raise `NotImplementedError`.
- app/models/test_failure_parser.rb is not part of this model. It is a single regular-expression substitution unrelated to externals.
