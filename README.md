# devtogo `push`, modelled in Dafny

`devtogo push` uploads a directory of markdown files to a dev.to account.
It fetches the account's article index once. Then it walks the source tree,
and for every file whose extension is `md` or `markdown` it:

- reads the file and validates its YAML frontmatter: a mapping with a string
  `title`, and an RFC 3339 `date` when one is given;
- finds the first remote article with exactly the same title;
- compares the SHA-256 digest of the raw file with the digest of that
  article's stored markdown;
- prints a status line: the title, a dotted padding, and
  `[UPLOADED|POSTING|SYNCING published|draft]`;
- unless the run is a dry run, sends a PUT to the matched article (the
  content changed) or a POST (no article has the title).

The first failure ends the run. That may be a read error, a frontmatter
error, or a transport failure.

The modules follow `src/push.rs`. Three of them model library code that
`src/push.rs` calls:

- `Frontmatter` covers `extract`, `Frontmatter::from_file` and
  `publish_status`. The YAML node the scanner produced is an input.
- `Rfc3339` stands in for chrono's RFC 3339 parser, which checks `date`
  values. It is the date-time grammar of section 5.6 of RFC 3339, with the
  value ranges of section 5.7.
- `RustPath` covers `valid_path`, the walk's filter, and the two
  `std::path::Path` methods it uses: `file_name` and `extension`, on
  `/`-separated paths.
- `Utf8` is the UTF-8 view of a Rust `str`, behind `str::as_bytes` and
  `str::len`.
- `Sync` holds:
  - the title lookup and the digest comparison;
  - the stateful `Hasher`, with `update` and `finalize_reset`;
  - the status line and its padding.
- `Push` holds the run itself:
  - the method `Run` is the loop, with one hasher shared by every file;
  - `RunSpec` is the function `Run` is proved against;
  - the lemmas about whole runs sit beside it.
- `Errors` lists the run's failure causes.
- `Wrappers` holds `Option` and `Result`.

The environment becomes parameters:

- `parse` is the frontmatter scanner;
- `hash` is SHA-256;
- `net` is what a request comes to after the retry policy;
- the walk is a sequence of entries, each carrying its read content;
- the fetched index is a `Result`.

The run's observable effects are a trace of printed status lines, issued
requests and replies.

## Model

| member | source | states |
|---|---|---|
| Frontmatter.PublishStatusOf | src/push.rs:132-138 | Published exactly when `published` is `Some(true)`; Draft when it is absent or false |
| Frontmatter.FromFile | src/push.rs:140-182 | A non-mapping fails as malformed. A mapping without a string title fails as missing its title. A string date that is not RFC 3339 fails with that value. It succeeds exactly when none of these holds. Each field is kept exactly when the key holds a value of the right type, and a wrongly typed value counts as absent |
| Frontmatter.Extract | src/push.rs:97-117 | A scanner failure is a syntax error and no frontmatter block is an error naming the file. Otherwise the result is `FromFile` on the block, with its error passed through unchanged; the body is returned on success |
| Frontmatter.StringField | src/push.rs:147-150 | A key yields a string exactly when it is present and holds a YAML string, and then it is that string |
| Frontmatter.BoolField | src/push.rs:151-154 | A key yields a boolean exactly when it is present and holds a YAML boolean, and then it is that boolean |
| Frontmatter.TitleOnly | src/push.rs:410-427 | A frontmatter holding only `title: foo` gives the default record titled "foo" |
| Frontmatter.DateExamples | src/push.rs:429-440 | A date of "..." is rejected with that value; a valid RFC 3339 date is kept |
| Rfc3339.FormatIsDateTime | src/push.rs:160-168 | Every well-formed timestamp (valid month, day in range for a leap or common year, hour, minute, second up to 60, offset) formats to a string the date check accepts |
| Rfc3339.AcceptsExample | src/push.rs:160-168 | "2021-01-01T00:00:00Z" is accepted |
| Rfc3339.RejectsExamples | src/push.rs:429-440 | "not-a-date" and "..." are rejected |
| Rfc3339.RejectsNonLeapDay | src/push.rs:160-168 | "2021-02-29T00:00:00Z" is rejected because 2021 is a common year |
| RustPath.FileName | src/push.rs:265 | The file name, when there is one, is never empty, "." or ".." |
| RustPath.LastIndexOf | src/push.rs:265-266 | None exactly when the character does not occur; otherwise an index holding it with no later occurrence |
| RustPath.ExtensionOf | src/push.rs:265-266 | An extension is dot-free and the name is a non-empty stem, a dot and the extension. No extension means the name is "..", has no dot, or has only a leading dot |
| RustPath.Extension | src/push.rs:265-266 | A path without a file name has no extension. An extension is dot-free, and the file name ends with a dot and the extension after a non-empty stem |
| RustPath.ExtensionOfSuffix | src/push.rs:265-266 | A file name has the non-empty, dot-free extension `e` exactly when it ends with "." and `e` after a non-empty stem |
| RustPath.ValidPathMeaning | src/push.rs:263-269 | `ValidPath` holds exactly when the path is not a directory and has a file name ending in ".md" or ".markdown" after a non-empty stem |
| RustPath.ValidPathOfParts | src/push.rs:262-268 | `dir/stem.ext` passes the filter exactly when it is not a directory and `ext` is `md` or `markdown`, whatever `dir` is |
| RustPath.RootIsNeverValid | src/push.rs:356-359 | "/" never passes the filter |
| RustPath.Examples | src/push.rs:361-374 | `/foo.md` and `/foo.markdown` pass, `/foo.txt` does not, and a directory named `foo.md` does not |
| Utf8.Width | src/push.rs:310 | A character takes one to four bytes, and one exactly when it is ASCII |
| Utf8.EncodeChar | src/push.rs:310 | A character is encoded in exactly as many bytes as its UTF-8 width |
| Utf8.DecodeEncode | src/push.rs:293-296 | Decoding the bytes of a string gives the string back |
| Utf8.EncodeInjective | src/push.rs:293-296 | Two strings have the same bytes exactly when they are equal |
| Utf8.ByteLength | src/push.rs:310 | A string's byte length is at least its character count, and equal to it exactly when the string is ASCII |
| Sync.FirstMatch | src/push.rs:289 | None exactly when no article has the title; otherwise the index of the first article titled exactly so |
| Sync.Classify | src/push.rs:289-305 | Posting exactly when no article has the title. Syncing carries the first article with the title, and only when the two digests differ. Uploaded means the first match's digest equals the file's |
| Sync.ClassifyMeaning | src/push.rs:289-305 | With a collision-free digest: Posting exactly when no title matches; Uploaded exactly when the first match stores the local content; Syncing of an article exactly when it is the first match and stores other content |
| Sync.Hasher.constructor | src/push.rs:278 | A new hasher has nothing pending |
| Sync.Hasher.Update | src/push.rs:293 | The bytes are appended to what is pending |
| Sync.Hasher.FinalizeReset | src/push.rs:294 | Returns the digest of everything fed since the last reset and empties the hasher |
| Sync.DisplayTitle | src/push.rs:308 | The displayed title is a prefix of the title, of length the smaller of 50 and its character count |
| Sync.UploadLabel | src/push.rs:18-33 | "UPLOADED", "POSTING" and "SYNCING" each name exactly one of the three decisions |
| Sync.PublishLabel | src/push.rs:41-55 | "published" names exactly the Published status and "draft" exactly the Draft one |
| Sync.PaddingWidth | src/push.rs:310 | The padding is at most 50. It brings a title of at most 50 bytes up to 50 and is zero for a longer one, as `checked_sub` gives zero on underflow |
| Sync.Dots | src/push.rs:309-310 | `n` dots: a string of length `n` of which every character is "." |
| Sync.StatusLineLayout | src/push.rs:306-313 | `StatusLine` and its `Tag`: the displayed title, then the padding's dots, then "[", the upload label, a space, the publish label and "]" |
| Sync.PaddingAlignment | src/push.rs:306-311 | The tag never starts past column 50. It starts exactly there when the title has at least 50 characters or is plain ASCII |
| Sync.StatusLineDeterminesStatus | src/push.rs:306-312 | Two status lines for the same document are equal exactly when the decisions are of the same kind |
| Push.Send | src/push.rs:185-244 | The request is issued first and is the only request. The run fails exactly on a transport failure, whose error is the transport error; an unsuccessful HTTP reply does not fail the run |
| Push.Dispatch | src/push.rs:314-324 | At most one request, and none exactly for an unchanged file. A request carries the file's content, and it is a PUT, to the matched id, exactly when the file is syncing |
| Push.Decide | src/push.rs:289-305 | Using the shared hasher gives exactly `Classify`, and leaves the hasher empty for the next file |
| Push.Report | src/push.rs:306-324 | The status line comes first. The requests are none in a dry run and the decision's dispatch otherwise. The report fails exactly when a request meets a transport failure, and the error is then a transport failure |
| Push.ReportPrintsOneLine | src/push.rs:306-324 | Reporting a decision prints exactly one status line, whatever the reply |
| Push.ProcessContent | src/push.rs:287-324 | A validation failure ends the file with that error and no trace. Otherwise the first event is the status line of the validated title's decision |
| Push.Step | src/push.rs:284-324 | A read failure ends the file with no trace. The trace is empty exactly when the read or the validation fails, and an empty trace always means failure |
| Push.Process | src/push.rs:284-324 | One file's read, validation, decision, status line and request are exactly its step; the hasher is left empty |
| Push.Run | src/push.rs:271-327 | The loop's result and trace are exactly `RunSpec`'s: a failed fetch ends the run, and otherwise the selected entries are processed in order up to the first failure |
| Push.RunSpec | src/push.rs:271-277 | A failed index fetch ends the run with that error, before anything is printed or sent. The walk itself (`RunWith`) is stated by the lemmas below |
| Push.FirstFailureEndsRun | src/push.rs:284-320 | When entries before `k` go through and entry `k` fails, the run fails with that entry's outcome and nothing after it happens |
| Push.RunSucceedsIffEveryFileDoes | src/push.rs:279-326 | A run succeeds exactly when every selected entry goes through |
| Push.StepFollowsPlan | src/push.rs:314-324 | Each file sends exactly what its decision calls for: PUT to the matched id for a changed file, POST for a new one, nothing for an unchanged one, in a dry run or when it fails |
| Push.RequestsFollowPlan | src/push.rs:279-324 | The requests of a run follow the plan in walk order: all of it on success, a prefix of it when a failure cut the run short |
| Push.DryRunSendsNothing | src/push.rs:314 | A dry run sends no request, whatever the files, the index and the network |
| Push.StepPrintsOneLine | src/push.rs:306-313 | A file that goes through prints exactly one status line, and prints it before any request |
| Push.RunPrintsOneLinePerFile | src/push.rs:279-313 | A successful run prints one status line per markdown file the walk found |
| Push.NewFileDryRun | src/push.rs:289-314 | With no remote article, a dry run over `foo.md` prints a POSTING line and sends nothing |
| Push.ChangedFileIsUpdated | src/push.rs:289-316 | When article 7 has the title but other content, a write run prints a SYNCING line and sends one PUT to article 7 with the file's content |
| Push.UnchangedFileIsLeftAlone | src/push.rs:289-324 | When article 7 stores exactly the file, the run prints an UPLOADED line and sends nothing, dry run or not |

## Left out

- The command line, the environment variable holding the API key, and the async runtime (`src/main.rs`). The run's inputs are parameters.
- HTTP itself: URLs, headers, JSON bodies and status codes. `again::retry`'s attempt policy is also left out. `net` gives the final outcome of each request.
- The reply messages printed by `post` and `put` ("Post was successful", the error text). The trace records only whether the reply was a success.
- `fetch`: only its result is modelled, as the fetched `Result`. Its `per_page=1000` limit and the "bad or invalid API Key" text are not modelled.
- The YAML scanner (`frontmatter::parse_and_find_content`). Its output is taken as input.
- `Yaml::Integer` values are unbounded integers, not 64-bit.
- chrono's parser is replaced by the RFC 3339 grammar. chrono's exact leniencies beyond that grammar are not modelled.
- SHA-256 itself. It is the `hash` parameter, assumed collision-free only in the lemmas that relate digests to content.
- The directory walker: traversal order, symlinks and the default source ".". The walk is a given sequence. Entries it could not produce are skipped, as `filter_map(e.ok())` skips them. `is_dir` is a flag on each entry.
- `fs::read_to_string`: its result is the entry's optional content. A file that is not valid UTF-8 is a read failure.
- Terminal colours and the `eprintln!` diagnostic.
- Error message texts: errors are constructors carrying the file name and the rejected date.
- Article fields the run never reads: description, cover image, publish data, tags, slug, path, url, canonical url.
- Windows path prefixes and `\` separators.
- An empty `title` string is accepted, as the code does. A non-empty title is not required.
