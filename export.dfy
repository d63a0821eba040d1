/** The body of the `customFileTreeView.copyCheckedFiles` command
    (src/commands.ts, lines 16-117): read each checked path in order,
    normalize its text, append a labelled section, sort the path into the
    result lists, then decide on the clipboard and the message. Reading a
    file and `JSON.stringify(JSON.parse(..))` are oracles given as
    parameters. */
module Export {
  import opened Wrappers
  import opened Paths
  import opened TextNormalize
  import Provider

  /** `error.name || 'unknown error'`. */
  function ErrorLabel(name: string): (l: string)
    ensures l != []
    ensures name != [] ==> l == name
  {
    if name == [] then "unknown error" else name
  }

  const JsonTag := " (JSON formatted)"
  const WhitespaceTag := " (whitespace normalized)"

  /** The line that opens a file's section of the payload. */
  function SectionHeader(display: string): string {
    "\n\n// --- File : " + display + " ---\n\n"
  }

  /** The text to copy for a file that was read, with the entry it adds to
      the processed list or to the processing-failed list, if any. */
  datatype Processing = Processing(content: string, processed: Option<string>, failed: Option<string>)

  /** The inner `try` of the loop (src/commands.ts, lines 35-72). */
  function Process(path: Path, text: string, minify: string -> Result<string>): Processing {
    if IsJsonPath(path) then
      match minify(text)
      case Ok(m) => Processing(m, Some(BaseName(path) + JsonTag), None)
      case Err(e) => Processing(text, None, Some(BaseName(path) + " (normalization: " + ErrorLabel(e) + ")"))
    else
      var normalized := NormalizeText(text);
      Processing(normalized, if normalized != text then Some(BaseName(path) + WhitespaceTag) else None, None)
  }

  /** What one path contributes. */
  datatype FileResult =
    | ReadFailed(entry: string)
    | ReadOk(name: string, section: string, processed: Option<string>, failed: Option<string>)

  /** One iteration of the loop (src/commands.ts, lines 31-87). */
  function ExportFile(path: Path, root: Option<Path>, read: Path -> Result<string>,
                      minify: string -> Result<string>): FileResult {
    match read(path)
    case Err(e) => ReadFailed(BaseName(path) + " (reading: " + ErrorLabel(e) + ")")
    case Ok(text) =>
      var p := Process(path, text, minify);
      ReadOk(BaseName(path), SectionHeader(DisplayPath(path, root)) + p.content, p.processed, p.failed)
  }

  /** The results of the paths, in their order. */
  function Results(paths: seq<Path>, root: Option<Path>, read: Path -> Result<string>,
                   minify: string -> Result<string>): seq<FileResult> {
    seq(|paths|, i requires 0 <= i < |paths| => ExportFile(paths[i], root, read, minify))
  }

  // -------------------------------------------------------------------
  // The four lists and the payload, as the loop builds them.
  // -------------------------------------------------------------------

  /** The concatenation of what each result contributes, in order. */
  function Collect<T>(rs: seq<FileResult>, part: FileResult -> seq<T>): seq<T> {
    if rs == [] then [] else Collect(rs[..|rs| - 1], part) + part(rs[|rs| - 1])
  }

  function NameOf(r: FileResult): seq<string> {
    if r.ReadOk? then [r.name] else []
  }

  function ReadFailureOf(r: FileResult): seq<string> {
    if r.ReadFailed? then [r.entry] else []
  }

  function ProcessedOf(r: FileResult): seq<string> {
    if r.ReadOk? && r.processed.Some? then [r.processed.value] else []
  }

  function ProcessingFailureOf(r: FileResult): seq<string> {
    if r.ReadOk? && r.failed.Some? then [r.failed.value] else []
  }

  function SectionOf(r: FileResult): string {
    if r.ReadOk? then r.section else []
  }

  /** `filesReadSuccessfully`. */
  function Names(rs: seq<FileResult>): seq<string> {
    Collect(rs, NameOf)
  }

  /** `filesFailedToRead`. */
  function ReadFailures(rs: seq<FileResult>): seq<string> {
    Collect(rs, ReadFailureOf)
  }

  /** `filesProcessedForWhitespace`. */
  function Processed(rs: seq<FileResult>): seq<string> {
    Collect(rs, ProcessedOf)
  }

  /** `filesProcessingFailed`. */
  function ProcessingFailures(rs: seq<FileResult>): seq<string> {
    Collect(rs, ProcessingFailureOf)
  }

  /** `allContent` before the final strip. */
  function Payload(rs: seq<FileResult>): string {
    Collect(rs, SectionOf)
  }

  /** The post-loop `if (allContent.startsWith("\n\n"))`. */
  function StripLeadingBreaks(s: string): (r: string)
    ensures |s| >= 2 && s[..2] == "\n\n" ==> s == "\n\n" + r
    ensures !(|s| >= 2 && s[..2] == "\n\n") ==> r == s
  {
    if |s| >= 2 && s[..2] == "\n\n" then
      assert s == s[..2] + s[2..];
      s[2..]
    else s
  }

  // -------------------------------------------------------------------
  // The summary line (src/commands.ts, lines 98-106).
  // -------------------------------------------------------------------

  /** `s.includes(sub)`. */
  predicate Includes(s: string, sub: string) {
    |s| >= |sub| && (s[..|sub|] == sub || Includes(s[1..], sub))
  }

  /** `s.replace(pat, rep)` with a string pattern: the first occurrence. */
  function ReplaceFirst(s: string, pat: string, rep: string): string
    requires pat != []
  {
    if |s| < |pat| then s
    else if s[..|pat|] == pat then rep + s[|pat|..]
    else [s[0]] + ReplaceFirst(s[1..], pat, rep)
  }

  function StripTags(entries: seq<string>): (r: seq<string>)
    ensures |r| == |entries|
  {
    if entries == [] then []
    else
      var f := entries[|entries| - 1];
      StripTags(entries[..|entries| - 1]) + [ReplaceFirst(ReplaceFirst(f, JsonTag, ""), WhitespaceTag, "")]
  }

  function TaggedEntries(entries: seq<string>): seq<string> {
    if entries == [] then []
    else
      var f := entries[|entries| - 1];
      var tagged := Includes(f, "(JSON formatted)") || Includes(f, "(whitespace normalized)");
      TaggedEntries(entries[..|entries| - 1]) + (if tagged then [f] else [])
  }

  /** The number of distinct processed names the summary line reports, or
      `None` when the line is left out. */
  function SummaryCount(processed: seq<string>): Option<nat> {
    var names := StripTags(processed);
    var unique := set n | n in names;
    if |unique| > 0 && |names| == |TaggedEntries(processed)| then Some(|unique|) else None
  }

  // -------------------------------------------------------------------
  // The outcome.
  // -------------------------------------------------------------------

  datatype Severity = Info | Warning

  /** What the command ends with: the clipboard text and the message. */
  datatype Outcome =
    | NothingSelected
    | Copied(clipboard: string, copied: seq<string>, processedCount: Option<nat>,
             processingFailed: seq<string>, severity: Severity)
    | Unreadable(failures: seq<string>)
    | NoMessage

  /** The decision after the loop (src/commands.ts, lines 90-117). */
  function Decide(rs: seq<FileResult>): Outcome {
    if Names(rs) != [] then
      Copied(StripLeadingBreaks(Payload(rs)), Names(rs), SummaryCount(Processed(rs)),
             ProcessingFailures(rs), if ProcessingFailures(rs) != [] then Warning else Info)
    else if ReadFailures(rs) != [] then Unreadable(ReadFailures(rs))
    else NoMessage
  }

  lemma AppendAssoc(a: string, b: string, c: string)
    ensures (a + b) + c == a + (b + c)
  {
  }

  /** One more result extends a list by what it contributes. */
  lemma Step<T>(rs: seq<FileResult>, i: nat, part: FileResult -> seq<T>)
    requires i < |rs|
    ensures Collect(rs[..i + 1], part) == Collect(rs[..i], part) + part(rs[i])
  {
    assert rs[..i + 1][..i] == rs[..i];
  }

  /** The entry an optional list item contributes. */
  function Entries(o: Option<string>): (r: seq<string>)
    ensures o.None? ==> r == []
    ensures o.Some? ==> r == [o.value]
  {
    if o.Some? then [o.value] else []
  }

  /** An unreadable path leaves every list but the read failures, and the
      payload, as they were. */
  lemma StepUnreadable(rs: seq<FileResult>, i: nat)
    requires i < |rs| && rs[i].ReadFailed?
    ensures Payload(rs[..i + 1]) == Payload(rs[..i])
    ensures Names(rs[..i + 1]) == Names(rs[..i])
    ensures ReadFailures(rs[..i + 1]) == ReadFailures(rs[..i]) + [rs[i].entry]
    ensures Processed(rs[..i + 1]) == Processed(rs[..i])
    ensures ProcessingFailures(rs[..i + 1]) == ProcessingFailures(rs[..i])
  {
    Step(rs, i, NameOf);
    Step(rs, i, ReadFailureOf);
    Step(rs, i, ProcessedOf);
    Step(rs, i, ProcessingFailureOf);
    Step(rs, i, SectionOf);
  }

  /** A path that was read appends its section, its name and its
      processing entries. */
  lemma StepReadable(rs: seq<FileResult>, i: nat)
    requires i < |rs| && rs[i].ReadOk?
    ensures Payload(rs[..i + 1]) == Payload(rs[..i]) + rs[i].section
    ensures Names(rs[..i + 1]) == Names(rs[..i]) + [rs[i].name]
    ensures ReadFailures(rs[..i + 1]) == ReadFailures(rs[..i])
    ensures Processed(rs[..i + 1]) == Processed(rs[..i]) + Entries(rs[i].processed)
    ensures ProcessingFailures(rs[..i + 1]) == ProcessingFailures(rs[..i]) + Entries(rs[i].failed)
  {
    Step(rs, i, NameOf);
    Step(rs, i, ReadFailureOf);
    Step(rs, i, ProcessedOf);
    Step(rs, i, ProcessingFailureOf);
    Step(rs, i, SectionOf);
    assert ReadFailures(rs[..i]) + [] == ReadFailures(rs[..i]);
  }

  /** The inner `try` of the loop (src/commands.ts, lines 35-72): the text
      to copy, and the entry recorded as processed or as failed, if any. */
  method ProcessFile(filePath: Path, original: string, minify: string -> Result<string>)
    returns (contentToCopy: string, processedEntry: Option<string>, failedEntry: Option<string>)
    ensures Processing(contentToCopy, processedEntry, failedEntry) == Process(filePath, original, minify)
  {
    contentToCopy := original;
    processedEntry, failedEntry := None, None;
    if IsJsonPath(filePath) {
      var minified := minify(original);
      if minified.Ok? {
        contentToCopy := minified.value;
        processedEntry := Some(BaseName(filePath) + JsonTag);
      } else {
        failedEntry := Some(BaseName(filePath) + " (normalization: " + ErrorLabel(minified.name) + ")");
        contentToCopy := original;
      }
    } else {
      var normalized := NormalizeText(original);
      if normalized != original {
        processedEntry := Some(BaseName(filePath) + WhitespaceTag);
      }
      contentToCopy := normalized;
    }
  }

  /** The command body, over the checked paths in insertion order. */
  method CopyCheckedFiles(paths: seq<Path>, root: Option<Path>, read: Path -> Result<string>,
                          minify: string -> Result<string>) returns (outcome: Outcome)
    ensures paths == [] ==> outcome == NothingSelected
    ensures paths != [] ==> outcome == Decide(Results(paths, root, read, minify))
  {
    if |paths| == 0 {
      return NothingSelected;
    }
    ghost var rs := Results(paths, root, read, minify);
    var allContent := "";
    var readOk: seq<string> := [];
    var readFailed: seq<string> := [];
    var processed: seq<string> := [];
    var processingFailed: seq<string> := [];
    for i := 0 to |paths|
      invariant allContent == Payload(rs[..i])
      invariant readOk == Names(rs[..i]) && readFailed == ReadFailures(rs[..i])
      invariant processed == Processed(rs[..i]) && processingFailed == ProcessingFailures(rs[..i])
    {
      var filePath := paths[i];
      assert rs[i] == ExportFile(filePath, root, read, minify);
      var contents := read(filePath);
      if contents.Err? {
        StepUnreadable(rs, i);
        readFailed := readFailed + [BaseName(filePath) + " (reading: " + ErrorLabel(contents.name) + ")"];
        continue;
      }
      StepReadable(rs, i);
      var contentToCopy, processedEntry, failedEntry := ProcessFile(filePath, contents.value, minify);
      processed := processed + Entries(processedEntry);
      processingFailed := processingFailed + Entries(failedEntry);
      var displayPath := DisplayPath(filePath, root);
      assert rs[i].section == SectionHeader(displayPath) + contentToCopy;
      ghost var before := allContent;
      allContent := allContent + SectionHeader(displayPath);
      allContent := allContent + contentToCopy;
      AppendAssoc(before, SectionHeader(displayPath), contentToCopy);
      readOk := readOk + [BaseName(filePath)];
    }
    assert rs[..|paths|] == rs;
    allContent := StripLeadingBreaks(allContent);
    if |readOk| > 0 {
      var severity := if |processingFailed| > 0 then Warning else Info;
      outcome := Copied(allContent, readOk, SummaryCount(processed), processingFailed, severity);
    } else if |readFailed| > 0 {
      outcome := Unreadable(readFailed);
    } else {
      outcome := NoMessage;
    }
  }

  /** The registered command: the provider's checked paths, in insertion
      order, and its root (src/commands.ts, lines 16-17). */
  method CopyCheckedFilesCommand(provider: Provider.FileSystemProvider, read: Path -> Result<string>,
                                 minify: string -> Result<string>) returns (outcome: Outcome)
    requires provider.Valid()
    ensures provider.checked == [] ==> outcome == NothingSelected
    ensures provider.checked != [] ==>
      outcome == Decide(Results(provider.checked, provider.root, read, minify))
  {
    var checkedFilePaths := provider.GetCheckedFilePaths();
    var rootUri := provider.GetWorkspaceRoot();
    outcome := CopyCheckedFiles(checkedFilePaths, rootUri, read, minify);
  }

  // -------------------------------------------------------------------
  // Properties.
  // -------------------------------------------------------------------

  /** The entry carries one of the two tags the summary line looks for. */
  predicate Tagged(f: string) {
    Includes(f, "(JSON formatted)") || Includes(f, "(whitespace normalized)")
  }

  lemma {:induction false} IncludesSuffix(a: string, b: string)
    ensures Includes(a + b, b)
  {
    if a != [] {
      assert (a + b)[1..] == a[1..] + b;
      IncludesSuffix(a[1..], b);
    } else {
      assert a + b == b && b[..|b|] == b;
    }
  }

  /** A result as `ExportFile` builds it: a section opening with "\n\n",
      never both a processed and a processing-failed entry, and a tag on
      every processed entry. */
  predicate WellMade(r: FileResult) {
    r.ReadOk? ==>
      |r.section| >= 2 && r.section[..2] == "\n\n"
      && !(r.processed.Some? && r.failed.Some?)
      && (r.processed.Some? ==> Tagged(r.processed.value))
  }

  lemma JsonTagged(b: string)
    ensures Tagged(b + JsonTag)
  {
    IncludesSuffix(b + " ", "(JSON formatted)");
    assert b + JsonTag == (b + " ") + "(JSON formatted)";
  }

  lemma WhitespaceTagged(b: string)
    ensures Tagged(b + WhitespaceTag)
  {
    IncludesSuffix(b + " ", "(whitespace normalized)");
    assert b + WhitespaceTag == (b + " ") + "(whitespace normalized)";
  }

  /** A file that was read gets at most one processing entry, and a
      processed entry always carries its tag. */
  lemma ProcessEntries(path: Path, text: string, minify: string -> Result<string>)
    ensures var p := Process(path, text, minify);
      !(p.processed.Some? && p.failed.Some?)
      && (p.processed.Some? ==> Tagged(p.processed.value))
  {
    JsonTagged(BaseName(path));
    WhitespaceTagged(BaseName(path));
  }

  /** A JSON path is recorded as JSON formatted exactly when the minifier
      succeeds; otherwise it keeps its original text and is recorded as
      failed. */
  lemma ProcessJson(path: Path, text: string, minify: string -> Result<string>)
    requires IsJsonPath(path)
    ensures var p := Process(path, text, minify);
      (p.processed.Some? <==> minify(text).Ok?)
      && (p.failed.Some? <==> minify(text).Err?)
      && (minify(text).Ok? ==> p.content == minify(text).value)
      && (minify(text).Err? ==> p.content == text)
  {
  }

  /** Any other path gets text in normal form, is recorded as normalized
      exactly when that text differs from the original, never fails, and
      would not be recorded again if its output were exported once more. */
  lemma ProcessText(path: Path, text: string, minify: string -> Result<string>)
    requires !IsJsonPath(path)
    ensures var p := Process(path, text, minify);
      NormalForm(p.content) && p.failed.None?
      && (p.processed.Some? <==> p.content != text)
      && Process(path, p.content, minify).processed.None?
  {
    NormalizeTextNormalForm(text);
    NormalizeTextIdempotent(text);
  }

  lemma SectionStart(display: string, content: string)
    ensures |SectionHeader(display) + content| >= 2
    ensures (SectionHeader(display) + content)[..2] == "\n\n"
  {
  }

  lemma ExportFileWellMade(path: Path, root: Option<Path>, read: Path -> Result<string>,
                           minify: string -> Result<string>)
    ensures WellMade(ExportFile(path, root, read, minify))
  {
    if read(path).Ok? {
      ProcessEntries(path, read(path).value, minify);
      SectionStart(DisplayPath(path, root), Process(path, read(path).value, minify).content);
    }
  }

  lemma ResultsWellMade(paths: seq<Path>, root: Option<Path>, read: Path -> Result<string>,
                        minify: string -> Result<string>)
    ensures forall r :: r in Results(paths, root, read, minify) ==> WellMade(r)
  {
    forall i | 0 <= i < |paths|
      ensures WellMade(Results(paths, root, read, minify)[i])
    {
      ExportFileWellMade(paths[i], root, read, minify);
    }
  }

  /** Every path lands in exactly one of the two read lists, and a file
      that was read adds at most one entry to the processing lists. */
  lemma {:induction false} Partition(rs: seq<FileResult>)
    requires forall r :: r in rs ==> WellMade(r)
    ensures |Names(rs)| + |ReadFailures(rs)| == |rs|
    ensures |Processed(rs)| + |ProcessingFailures(rs)| <= |Names(rs)|
    ensures forall f :: f in Processed(rs) ==> Tagged(f)
  {
    if rs != [] {
      var front := rs[..|rs| - 1];
      assert forall r :: r in front ==> r in rs;
      assert rs[|rs| - 1] in rs;
      Partition(front);
    }
  }

  lemma {:induction false} CollectConcat<T>(a: seq<FileResult>, b: seq<FileResult>, part: FileResult -> seq<T>)
    ensures Collect(a + b, part) == Collect(a, part) + Collect(b, part)
  {
    if b == [] {
      assert a + b == a;
    } else {
      assert (a + b)[..|a + b| - 1] == a + b[..|b| - 1];
      CollectConcat(a, b[..|b| - 1], part);
    }
  }

  lemma CollectSnoc<T>(rs: seq<FileResult>, r: FileResult, part: FileResult -> seq<T>)
    ensures Collect(rs + [r], part) == Collect(rs, part) + part(r)
  {
    assert (rs + [r])[..|rs|] == rs;
  }

  lemma ResultsSnoc(paths: seq<Path>, p: Path, root: Option<Path>,
                    read: Path -> Result<string>, minify: string -> Result<string>)
    ensures Results(paths + [p], root, read, minify) ==
      Results(paths, root, read, minify) + [ExportFile(p, root, read, minify)]
  {
  }

  /** The lists and the payload of a concatenation are the concatenations:
      sections and entries follow the order of the paths. */
  lemma Concatenation(a: seq<FileResult>, b: seq<FileResult>)
    ensures Payload(a + b) == Payload(a) + Payload(b)
    ensures Names(a + b) == Names(a) + Names(b)
    ensures ReadFailures(a + b) == ReadFailures(a) + ReadFailures(b)
    ensures Processed(a + b) == Processed(a) + Processed(b)
    ensures ProcessingFailures(a + b) == ProcessingFailures(a) + ProcessingFailures(b)
  {
    CollectConcat(a, b, SectionOf);
    CollectConcat(a, b, NameOf);
    CollectConcat(a, b, ReadFailureOf);
    CollectConcat(a, b, ProcessedOf);
    CollectConcat(a, b, ProcessingFailureOf);
  }

  /** What one more path appends to each list and to the payload. */
  lemma AppendPath(paths: seq<Path>, p: Path, root: Option<Path>,
                   read: Path -> Result<string>, minify: string -> Result<string>)
    ensures var rs, r := Results(paths, root, read, minify), ExportFile(p, root, read, minify);
      var next := Results(paths + [p], root, read, minify);
      Payload(next) == Payload(rs) + SectionOf(r)
      && Names(next) == Names(rs) + NameOf(r)
      && ReadFailures(next) == ReadFailures(rs) + ReadFailureOf(r)
  {
    ResultsSnoc(paths, p, root, read, minify);
    var rs, r := Results(paths, root, read, minify), ExportFile(p, root, read, minify);
    CollectSnoc(rs, r, SectionOf);
    CollectSnoc(rs, r, NameOf);
    CollectSnoc(rs, r, ReadFailureOf);
  }

  /** A path that cannot be read adds no section, no name and one
      read-failure entry. */
  lemma AppendUnreadable(paths: seq<Path>, p: Path, root: Option<Path>,
                         read: Path -> Result<string>, minify: string -> Result<string>)
    requires read(p).Err?
    ensures Payload(Results(paths + [p], root, read, minify)) == Payload(Results(paths, root, read, minify))
    ensures Names(Results(paths + [p], root, read, minify)) == Names(Results(paths, root, read, minify))
    ensures |ReadFailures(Results(paths + [p], root, read, minify))| ==
      |ReadFailures(Results(paths, root, read, minify))| + 1
  {
    AppendPath(paths, p, root, read, minify);
    var r := ExportFile(p, root, read, minify);
    assert r.ReadFailed?;
    assert SectionOf(r) == [] && NameOf(r) == [] && |ReadFailureOf(r)| == 1;
  }

  /** The result of a path that can be read: its base name, and its
      section labelled with its display path. */
  lemma ReadableResult(p: Path, root: Option<Path>, read: Path -> Result<string>,
                       minify: string -> Result<string>)
    requires read(p).Ok?
    ensures var r := ExportFile(p, root, read, minify);
      r.ReadOk? && r.name == BaseName(p)
      && r.section == SectionHeader(DisplayPath(p, root)) + Process(p, read(p).value, minify).content
  {
  }

  /** A path that can be read appends its section after the sections of
      the paths before it, and its base name after theirs. */
  lemma AppendReadable(paths: seq<Path>, p: Path, root: Option<Path>,
                       read: Path -> Result<string>, minify: string -> Result<string>)
    requires read(p).Ok?
    ensures Payload(Results(paths + [p], root, read, minify)) ==
      Payload(Results(paths, root, read, minify)) + ExportFile(p, root, read, minify).section
    ensures Names(Results(paths + [p], root, read, minify)) == Names(Results(paths, root, read, minify)) + [BaseName(p)]
    ensures ReadFailures(Results(paths + [p], root, read, minify)) == ReadFailures(Results(paths, root, read, minify))
  {
    AppendPath(paths, p, root, read, minify);
    var r := ExportFile(p, root, read, minify);
    ReadableResult(p, root, read, minify);
    assert SectionOf(r) == r.section && NameOf(r) == [BaseName(p)] && ReadFailureOf(r) == [];
    assert ReadFailures(Results(paths, root, read, minify)) + [] == ReadFailures(Results(paths, root, read, minify));
  }

  /** The payload is empty when nothing was read, and otherwise opens with
      the "\n\n" of the first section, which is what the final strip
      removes. */
  lemma {:induction false} PayloadStart(rs: seq<FileResult>)
    requires forall r :: r in rs ==> WellMade(r)
    ensures Names(rs) == [] ==> Payload(rs) == []
    ensures Names(rs) != [] ==> |Payload(rs)| >= 2 && Payload(rs)[..2] == "\n\n"
  {
    if rs != [] {
      var front := rs[..|rs| - 1];
      var r := rs[|rs| - 1];
      assert forall x :: x in front ==> x in rs;
      assert r in rs;
      PayloadStart(front);
      if Names(front) != [] {
        assert Payload(rs) == Payload(front) + SectionOf(r);
        assert Payload(rs)[..2] == Payload(front)[..2];
      }
    }
  }

  /** Some path was read iff the list of read files is not empty. */
  lemma {:induction false} NamesNonEmpty(rs: seq<FileResult>)
    ensures Names(rs) != [] <==> exists i :: 0 <= i < |rs| && rs[i].ReadOk?
  {
    if rs != [] {
      var front := rs[..|rs| - 1];
      NamesNonEmpty(front);
      if exists i :: 0 <= i < |front| && front[i].ReadOk? {
        var i :| 0 <= i < |front| && front[i].ReadOk?;
        assert rs[i].ReadOk?;
      }
      if exists i :: 0 <= i < |rs| && rs[i].ReadOk? {
        var i :| 0 <= i < |rs| && rs[i].ReadOk?;
        if i < |front| {
          assert front[i].ReadOk?;
        }
      }
    }
  }

  lemma {:induction false} TaggedEntriesAll(entries: seq<string>)
    requires forall f :: f in entries ==> Tagged(f)
    ensures TaggedEntries(entries) == entries
  {
    if entries != [] {
      var front := entries[..|entries| - 1];
      assert forall f :: f in front ==> f in entries;
      assert entries[|entries| - 1] in entries;
      TaggedEntriesAll(front);
      assert entries == front + [entries[|entries| - 1]];
    }
  }

  /** The whitespace summary line is added exactly when some file was
      recorded as processed, because every recorded entry carries a tag. */
  lemma SummaryIffProcessed(processed: seq<string>)
    requires forall f :: f in processed ==> Tagged(f)
    ensures SummaryCount(processed).Some? <==> processed != []
    ensures SummaryCount(processed).Some? ==> SummaryCount(processed).value >= 1
  {
    TaggedEntriesAll(processed);
    var names := StripTags(processed);
    var unique := set n | n in names;
    assert |names| == |TaggedEntries(processed)|;
    if processed != [] {
      assert names[0] in unique;
      assert unique != {};
    }
  }

  /** The decision for a non-empty list of results: there is always a
      message; the clipboard is written iff some file was read, and then
      holds the payload less its leading "\n\n"; the message is a warning
      iff some processing failed; the summary line is there iff some file
      was processed; and when nothing was read every path is in the error
      message. */
  lemma DecideSpec(rs: seq<FileResult>)
    requires rs != [] && forall r :: r in rs ==> WellMade(r)
    ensures !Decide(rs).NoMessage? && !Decide(rs).NothingSelected?
    ensures Decide(rs).Copied? <==> Names(rs) != []
    ensures Decide(rs).Copied? ==> "\n\n" + Decide(rs).clipboard == Payload(rs)
    ensures Decide(rs).Copied? ==> (Decide(rs).severity == Warning <==> ProcessingFailures(rs) != [])
    ensures Decide(rs).Copied? ==> (Decide(rs).processedCount.Some? <==> Processed(rs) != [])
    ensures Decide(rs).Unreadable? ==> |Decide(rs).failures| == |rs|
  {
    Partition(rs);
    PayloadStart(rs);
    SummaryIffProcessed(Processed(rs));
  }

  /** The command on a non-empty selection ends with a message, and writes
      the clipboard iff some checked path could be read. */
  lemma CommandOutcome(paths: seq<Path>, root: Option<Path>, read: Path -> Result<string>,
                       minify: string -> Result<string>)
    requires paths != []
    ensures !Decide(Results(paths, root, read, minify)).NoMessage?
    ensures Decide(Results(paths, root, read, minify)).Copied? <==>
      exists i :: 0 <= i < |paths| && read(paths[i]).Ok?
    ensures Decide(Results(paths, root, read, minify)).Unreadable? ==>
      |Decide(Results(paths, root, read, minify)).failures| == |paths|
  {
    var rs := Results(paths, root, read, minify);
    ResultsWellMade(paths, root, read, minify);
    DecideSpec(rs);
    NamesNonEmpty(rs);
    assert forall i :: 0 <= i < |paths| ==> (rs[i].ReadOk? <==> read(paths[i]).Ok?);
  }
}
