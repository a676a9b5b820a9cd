# monako core, modelled in Dafny

monako composes a Hugo documentation site out of the docs folders of several
Git repositories. This project models the three pure cores of that tool and
proves what they do.

- **Markup link rewriting** (`internal/workarounds/workarounds.go`). Hugo puts
  every page one directory deeper ("pretty URLs"), so the code adds `../`
  after every `image:` (Asciidoc) and every `](` (Markdown) that is not
  directly followed by `http`, whatever the target is. `image:http`,
  `](http` and, in Markdown, `]](` are kept by an escape-marker trick; block
  macros `image::`, anchors `#x` and rooted targets `/x` gain `../` too.
  Each postprocessor is a fixed sequence of Go `strings.ReplaceAll` calls. `ReplaceAll` is modelled
  exactly as Go does it: leftmost, non-overlapping, and the replacement text
  is not rescanned.
- **File classification and directory copying** (`pkg/helpers/file.go`):
  - the case-blind suffix whitelist `shouldIgnoreFile`;
  - the format tests `isMarkdown`, `isAsciidoc` and `DetermineFormat`;
  - the per-entry decisions of `CopyDir` over an abstract directory tree.
- **Path mapping and the whitelisted tree walk** (`pkg/compose/file.go`):
  - `getLocalFilePath` is `TrimPrefix` followed by `filepath.Join`;
  - `getWhitelistedFiles` walks the tree depth-first;
  - `composeFile` picks the postprocessor for each file;
  - `NewOrigin` builds an empty origin.

Modules:

- `GoStrings` (`go_strings.dfy`): the Go `strings` functions the core uses,
  with a recursive `ReplaceAll`. Two loop methods compute `ReplaceAll` and are
  proved to agree with it.
- `GoFilepath` (`go_filepath.dfy`): `filepath.Clean`, `Join` and `Dir`,
  following Go's documented lexical rules on `/`-separated paths.
- `Workarounds` (`workarounds.dfy`): the two postprocessors.
  - A single left-to-right scan (`AsciidocScan`, `MarkdownScan`) describes
    each one exactly, on every input.
  - A marker-free rewrite (`AsciidocMarkerless`, `MarkdownMarkerless`)
    describes it without the escape-marker branches.
- `FileTree` (`file_tree.dfy`): the directory tree. A directory either lists
  its entries in `ReadDir` order or cannot be read. `Flatten` is the reference
  reading: every file in depth-first listing order, with the names of the
  directories above it.
- `Helpers` (`helpers_file.dfy`): classification, and `CopyDir` as the list
  of filesystem actions it performs.
- `Compose` (`compose_file.dfy`): origins, local paths, the walk and
  `composeFile`.

Filesystem effects become a list of actions (`MkdirAll`, `WriteFile`,
`CopyFile`) in the order the code performs them. A file's content is a
parameter of the tree. Where the code has a defect (see "Findings"), a
`Reading` parameter selects between the code as written (`AsWritten`) and
what it evidently intends (`Intended`).

The definitions of `Origin`, `Config`, `GetFormat` and `FileIsWhitelisted`
are not part of this model. The model assumes:

- an `Origin` carries the fields the code reads, including the config's
  `ContentWorkingDir`;
- `GetFormat` is `DetermineFormat` of the remote path, and the `Asciidoc` and
  `Markdown` constants compose compares it with are the `ASCIIDOC` and
  `MARKDOWN` values `DetermineFormat` returns;
- `FileIsWhitelisted` is the negation of `shouldIgnoreFile`.

## Model

| member | source | states |
|---|---|---|
| Workarounds.AsciidocSinglePass | internal/workarounds/workarounds.go:19-28 | For every input, the three passes equal one left-to-right scan. `image:http` is kept; every other `image:` becomes `image:../`; a literal `image_______http` becomes `image:http`; every other character is copied. |
| Workarounds.AsciidocStepHttp | internal/workarounds/workarounds.go:24-26 | An `image:http` at the front passes through unchanged, and the rest is processed on its own. |
| Workarounds.AsciidocStepRelative | internal/workarounds/workarounds.go:25 | An `image:` at the front that is not followed by `http` gains `../`. |
| Workarounds.AsciidocStepMarker | internal/workarounds/workarounds.go:26 | A literal escape marker at the front is turned into `image:http`. |
| Workarounds.AsciidocStepOther | internal/workarounds/workarounds.go:24-26 | A character that starts neither `image:` nor the marker is copied. |
| Workarounds.AsciidocBlockMacro | internal/workarounds/workarounds.go:24-26 | A block macro `image::t` comes out as `image:../:` followed by the processed `t`, even for an `http` target; the output no longer starts with `image::`. |
| Workarounds.AsciidocMarkerFree | internal/workarounds/workarounds.go:19-28 | On input without the escape marker, the postprocessor is the marker-free rewrite: `../` after every `image:` not directly followed by `http`, whatever the target; `image:http` kept. |
| Workarounds.AsciidocUntouched | internal/workarounds/workarounds.go:19-28 | Input that contains neither `image:` nor the marker is returned unchanged. |
| Workarounds.AsciidocMarkerQuirk | internal/workarounds/workarounds.go:26 | The bare marker `image_______http` comes out as `image:http`, where the marker-free rewrite keeps it. A marker at the front of any text is covered by Workarounds.AsciidocStepMarker. |
| Workarounds.AsciidocMarkerlessLength | internal/workarounds/workarounds.go:16-18 | The marker-free rewrite adds exactly three characters (`../`) per `image:` that is not an `image:http`. |
| Workarounds.AsciidocLength | internal/workarounds/workarounds.go:19-28 | On marker-free input, output length = input length + 3 × (`image:` count − `image:http` count). |
| Workarounds.MarkdownSinglePass | internal/workarounds/workarounds.go:33-46 | For every input, the five passes equal one left-to-right scan. `](http` and `]](` are kept; every other `](` becomes `](../`; literal `)_______http` and `]]_______(` become `](http` and `]](`; every other character is copied. |
| Workarounds.MarkdownStepDoubleHttp | internal/workarounds/workarounds.go:37-43 | A leading `]](http` passes all five passes intact. |
| Workarounds.MarkdownStepLinkHttp | internal/workarounds/workarounds.go:37-42 | A leading `](http` is kept. |
| Workarounds.MarkdownStepDoubleOpen | internal/workarounds/workarounds.go:38-43 | A leading `]](` that does not continue with `http` is kept. |
| Workarounds.MarkdownStepRelative | internal/workarounds/workarounds.go:40 | A leading `](` not followed by `http` gains `../`. |
| Workarounds.MarkdownStepLinkMarker | internal/workarounds/workarounds.go:42 | A leading literal `)_______http` becomes `](http`. |
| Workarounds.MarkdownStepDoubleMarker | internal/workarounds/workarounds.go:43 | A leading literal `]]_______(` becomes `]](`. |
| Workarounds.MarkdownStepOther | internal/workarounds/workarounds.go:37-43 | A character that starts no pattern or marker is copied. |
| Workarounds.MarkdownAnchorOrRooted | internal/workarounds/workarounds.go:37-43 | A link target starting with `#` or `/` gains `../`, like a relative one: `](#x` becomes `](../#x`, `](/x` becomes `](..//x`. |
| Workarounds.MarkdownMarkerFree | internal/workarounds/workarounds.go:30-46 | On input without either marker, the postprocessor is the marker-free rewrite: `../` after every `](` not directly followed by `http` and not the tail of `]](`, whatever the target. |
| Workarounds.MarkdownUntouched | internal/workarounds/workarounds.go:33-46 | Input without `](` and without markers is returned unchanged. |
| Workarounds.MarkdownMarkerQuirk | internal/workarounds/workarounds.go:42-43 | The bare markers `)_______http` and `]]_______(` are mis-restored to `](http` and `]](`; the marker-free rewrite keeps them. A marker at the front of any text is covered by Workarounds.MarkdownStepLinkMarker and Workarounds.MarkdownStepDoubleMarker. |
| Workarounds.MarkdownMarkerlessLength | internal/workarounds/workarounds.go:30-32 | Each rewritten link gains exactly one `../`. The length grows by 3 × (`](` − `](http` − `]](` + `]](http`) counts. |
| Workarounds.MarkdownLength | internal/workarounds/workarounds.go:33-46 | On marker-free input, output length = input length + 3 × rewritten links. |
| GoStrings.ReplaceAllLength | internal/workarounds/workarounds.go:24 | `ReplaceAll` changes the length by `|rep| − |pat|` per non-overlapping occurrence. |
| GoStrings.ReplaceByIndex | internal/workarounds/workarounds.go:24-26 | A loop that finds the next match by `Index` and splices in the replacement computes `ReplaceAll`. |
| GoStrings.ReplaceAllLoop | internal/workarounds/workarounds.go:37-43 | The loop form of `ReplaceAll`, including Go's empty-pattern case, agrees with the recursive definition. |
| GoStrings.ReplaceAllSelf | internal/workarounds/workarounds.go:37-43 | Replacing a pattern by itself leaves every string unchanged. |
| GoStrings.TrimPrefix | pkg/compose/file.go:178 | One leading prefix is removed when present; otherwise the string is unchanged. |
| Helpers.LowerSuffixIff | pkg/helpers/file.go:59 | `HasSuffix(ToLower(name), ToLower(ext))` holds exactly when `ext` is a case-blind suffix of `name`. |
| Helpers.ShouldIgnoreFile | pkg/helpers/file.go:57-64 | A file is ignored iff no whitelist entry is a case-blind suffix of its name; with an empty whitelist every file is ignored. |
| Helpers.IsMarkdown | pkg/helpers/file.go:66-68 | True iff `.md` is a case-blind suffix. |
| Helpers.IsAsciidoc | pkg/helpers/file.go:70-74 | True iff `.adoc`, `.asciidoc` or `.asc` is a case-blind suffix. |
| Helpers.FormatsDisjoint | pkg/helpers/file.go:66-74 | No name is both Markdown and Asciidoc. |
| Helpers.DetermineFormat | pkg/helpers/file.go:76-84 | Returns `MARKDOWN` iff Markdown, `ASCIIDOC` iff Asciidoc, `""` iff neither. |
| Helpers.DetermineFormatIgnoresCase | pkg/helpers/file.go:66-84 | Lowercasing a name does not change its format. |
| Helpers.IsMarkdownExamples | pkg/helpers/file_test.go:28-32 | `markdown.md` and `markdown.MD` are Markdown; `somefolderwith.md-init/somefile.tmp` is not. |
| Helpers.IsAsciidocExamples | pkg/helpers/file_test.go:34-38 | `asciidoc.adoc` and `asciidoc.ADOC` are Asciidoc; `somefolderwith.adoc-init/somefile.tmp` is not. |
| Helpers.PostprocessByName | pkg/helpers/file.go:134-147 | The rewrite is chosen by the file name: a Markdown name gets the Markdown postprocessor, an Asciidoc name the Asciidoc one, and any other name empty content. |
| Helpers.FileActionsCases | pkg/helpers/file.go:113-152 | An ignored file produces no action. A kept file first creates the target dir, then: Markdown is written postprocessed to `target/name`; Asciidoc is written nothing as written, postprocessed when intended; anything else is raw-copied. |
| Helpers.CopyTreeFlat | pkg/helpers/file.go:101-112 | A copy stops fatally iff some directory is unreadable. Otherwise its actions are the file decisions for every file of the flattened tree, each under `target/dir/…` for its directories. |
| Helpers.CopyDirIsFlat | pkg/helpers/file.go:86-158 | `CopyDir` recurses into directories with `target+"/"+name` and acts on every file in depth-first listing order. |
| Helpers.KeptFileDelivered | pkg/helpers/file.go:113-152 | With the fall-through, a kept file yields `MkdirAll` of its directory followed by its delivering action (a postprocessed write for Markdown and Asciidoc, a raw copy otherwise); as written, the same holds except that an Asciidoc file yields `MkdirAll` alone. An ignored file yields nothing. |
| Helpers.CopyDirDropsAsciidoc | pkg/helpers/file.go:130-131 | A whitelisted `index.adoc` yields only the `MkdirAll` and is never written. |
| Helpers.CopyDirIntendedDeliversAll | pkg/helpers/file.go:113-152 | With the fall-through, every whitelisted file of a readable tree is delivered to its target directory. |
| GoFilepath.JoinSlashSplit | pkg/compose/file.go:179 | Joining the pieces of a split with `/` gives back the path. |
| GoFilepath.SplitJoinSlash | pkg/compose/file.go:179 | Splitting a join of slash-free pieces gives back the pieces. |
| GoFilepath.CleanIdempotent | pkg/compose/file.go:179 | `Clean` of a cleaned path changes nothing. |
| GoFilepath.CleanKeepsRoot | pkg/compose/file.go:179 | A cleaned path is rooted iff the input was. |
| GoFilepath.CleanPlain | pkg/compose/file.go:179 | `Clean` of pieces that are empty, `.` or names drops the empty and `.` pieces and keeps the names in order. |
| GoFilepath.Join | pkg/compose/file.go:179 | `Join` is empty iff every element is empty. |
| GoFilepath.JoinIsClean | pkg/compose/file.go:179 | A non-empty `Join` is a clean path. |
| GoFilepath.DirProperties | pkg/compose/file.go:113-114 | `Dir` gives a clean path, and `.` for a name without separator. |
| Compose.NewOrigin | pkg/compose/file.go:50-57 | URL, branch, source dir and target dir are set; whitelist and files are empty. There is no config yet; the working dir is a placeholder that cannot be observed while the whitelist is empty. |
| Compose.WorkingDirUnobserved | pkg/compose/file.go:64-83 | With an empty whitelist the walk returns nothing and gives the same result whatever the working dir, so the nil config of a fresh origin is never read. |
| Compose.NewOriginFindsNothing | pkg/compose/file.go:50-94 | A fresh origin's empty whitelist lets the walk find no file in any tree. |
| Compose.FileIsWhitelisted | pkg/compose/file.go:77 | A name is whitelisted iff some entry is a case-blind suffix of it. |
| Compose.GetLocalFilePath | pkg/compose/file.go:176-180 | The local path is empty iff compose dir, target dir and stripped remote path are all empty. |
| Compose.LocalPathIsClean | pkg/compose/file.go:179 | A non-empty local path is lexically clean. |
| Compose.LocalPathOfPieces | pkg/compose/file.go:176-180 | For pieces that are empty, `.` or names: the local path runs compose dir, target dir and stripped remote path together, drops the empty and `.` pieces, and is rooted iff the compose dir is. |
| Compose.LocalPathKeepsStructure | pkg/compose/file_test.go:14-42 | With source dir `.`, a remote path keeps its directories below `/compose` and the target. This covers the shapes `/tmp/compose` + `filename.md` or `docs/filename.md`, with target `.`, `""` or `localTarget`. |
| Compose.LocalPathStripsSourceDir | pkg/compose/file_test.go:19-22 | A named source dir is stripped with its separator: `docs/filename.md` from `docs` lands directly below the compose dir. |
| Compose.LocalPathRelativeCompose | pkg/compose/file_test.go:29-32 | A relative compose dir `./compose` gives the relative, cleaned `compose/filename.md`. |
| Compose.LocalPathDropsLeadingDot | pkg/compose/file.go:178 | With source dir `.`, a remote path in a hidden directory `.x/…` is mapped to `x/…`, not to `.x/…`. |
| Compose.SourceDirWithDot | pkg/compose/file.go:178 | With source dir `./ds`, the cleaned remote path `ds/rs` keeps `ds` as written (TrimPrefix strips nothing), while the whole-element strip of the cleaned source dir gives `rs`. |
| Compose.RelativeToSource | pkg/compose/file.go:177-178 | The relative path is the remote path, or the remote path minus the cleaned source dir and one separator. |
| Compose.LocalPathIntendedKeepsStructure | pkg/compose/file.go:173-180 | Stripping by whole elements maps `ds/rs` with source dir `ds` (or `.`) to `compose/target/rs`, hidden elements included. |
| Compose.WhitelistedFiles | pkg/compose/file.go:79-83 | Every returned file's local path is the one its remote path gives. |
| Compose.WalkIsFlat | pkg/compose/file.go:59-94 | The walk returns exactly the whitelisted files of the tree, depth-first in listing order, each at the remote path of its parent Joins. Directories are never returned; an unreadable directory contributes nothing. |
| Compose.WalkEntriesAppend | pkg/compose/file.go:64-92 | A subdirectory's files are spliced in at its position: consecutive entries give consecutive results. |
| Compose.ComposeFile | pkg/compose/file.go:96-171 | First the parent dir is created. Then Markdown is written Markdown-postprocessed, Asciidoc is written Asciidoc-postprocessed, and everything else is copied byte for byte. |
| Compose.ComposePlainMarkdown | pkg/compose/file.go:158-159 | A Markdown file without links or markers is written unchanged. |
| Compose.ComposePlainAsciidoc | pkg/compose/file.go:160-161 | An Asciidoc file without image macros or markers is written unchanged. |

## Left out

- `CloneDir` and `GetCommitInfo` (pkg/helpers/file.go:26-55,172-189): git clone and log calls into a foreign library over the network.
- `AddFakeAsciidoctorBinForDiagramsToPath` (internal/workarounds/workarounds.go:51-116): it writes a shell script, changes `PATH` and depends on `url.Parse`.
- `ComposeDir` (pkg/compose/file.go:37-47): only glue. It calls the walk from the source dir and `composeFile` on each result, and prints a message. Its parts are modelled one by one.
- Filesystem effects are a list of actions, not performed, and their errors are not modelled. In the code, errors of `Stat`, `Chroot`, `Open`, `MkdirAll`, `Create` and `io.Copy` end the process, and so does a `WriteFile` error in compose's `copyMarkupFile` (pkg/compose/file.go:167-170). `CopyDir` discards the error of `ioutil.WriteFile` and carries on (pkg/helpers/file.go:148). Both discard `ioutil.ReadAll` errors (pkg/helpers/file.go:134, pkg/compose/file.go:154). An unreadable directory is the one error modelled: fatal in `CopyDir` (pkg/helpers/file.go:101-104), and no files in the compose walk, which discards the `ReadDir` error (pkg/compose/file.go:63).
- `log.Fatal` is modelled only as the fatal flag of `CopyDir`. Logging and `Printf` output are not modelled.
- The contents `copyRegularFile` and `copyMarkupFile` read are parameters of `ComposeFile`; they are not read from a filesystem.
- Helpers.ShouldIgnoreFile, Helpers.IsMarkdown, Helpers.IsAsciidoc, Helpers.DetermineFormat: lowercasing covers ASCII `A`–`Z` only. Go's `strings.ToLower` also folds other Unicode letters.
- Strings are sequences of characters; the Go `[]byte` to `string` conversions are the identity here.
- Compose.NewOrigin: the config pointer that `new(Origin)` leaves nil is not modelled. An origin carries a working dir string instead, empty in a fresh origin; reading the nil config would panic in Go, but Compose.WorkingDirUnobserved shows the walk cannot reach that read while the whitelist is empty.
- `GetFormat`, `FileIsWhitelisted`, `Origin` and `Config` are not part of this model. Their behaviour is the assumption stated above.
- `filepath.Clean`, `Join` and `Dir` are modelled from Go's documented lexical rules on `/`-separated paths; there are no volume names.
- Compose.LocalPathKeepsStructure: the six examples from pkg/compose/file_test.go:14-42 are proved for all paths of their shape, built from name pieces, rather than for the literal strings: each lemma is stated for every path of the shape, and the six literals are instances of these shapes. The remote paths in these lemmas have a first element that does not start with a dot, which covers every example.
- A rewrite that moves only relative targets, as the comment at internal/workarounds/workarounds.go:16-18 describes (`img/` to `../img/`), is not modelled as a corrected definition. The code also moves block-macro, anchor and rooted targets (Workarounds.AsciidocBlockMacro, Workarounds.MarkdownAnchorOrRooted). The source does not say what it means for those.
- cmd/monako/main.go: flag parsing, config loading and running Hugo.

## Findings

| source | as written | input that shows it | evidently intended | confidence | as-written member | corrected member |
|---|---|---|---|---|---|---|
| pkg/helpers/file.go:130-131 | `case Asciidoc:` is empty, and Go cases do not fall through, so a whitelisted Asciidoc file gets its directory created but is never written | a tree holding `index.adoc` copied with whitelist `[".adoc"]` | Asciidoc files are written postprocessed like Markdown, as the `else if contentFormat == Asciidoc` branch at lines 142-146 expects | medium, not executed | Helpers.CopyDirDropsAsciidoc | Helpers.CopyDirIntendedDeliversAll |
| pkg/compose/file.go:178 | `strings.TrimPrefix` strips the source dir character by character. With source dir `.`, a file in a hidden directory loses that directory's leading dot. | source dir `.`, remote path `.github/x.md`, compose dir `/tmp/compose` gives `/tmp/compose/github/x.md`; also source dir `./docs`, remote path `docs/x.md` (already cleaned by the walk) keeps `docs/` and gives `/tmp/compose/docs/x.md` (Compose.SourceDirWithDot) | the cleaned source dir is stripped as whole path elements, so the file lands at `/tmp/compose/.github/x.md`, and at `/tmp/compose/x.md` for `./docs` | medium, not executed | Compose.LocalPathDropsLeadingDot | Compose.LocalPathIntendedKeepsStructure |

The corrected definitions are `CopyDirIntended` and `GetLocalFilePathIntended`.
`CopyTree` and `WhitelistedFiles` take a `Reading` and use the corrected
definition under `Intended`.
