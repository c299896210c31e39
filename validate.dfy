/** A model of the `channels:validate` command: the checks it runs on every
    channel entry of a `*.channels.xml` site file, the per-file loop that
    collects the errors, and the batch loop that adds up the totals and
    decides the exit status.

    The pieces the command delegates to libraries are inputs here:
    - the ISO 639-1 language table is the set `langs` of known codes;
    - the canonical channel index is the set `canon` of canonical ids;
    - a parsed site file is a sequence of `Entry` records;
    - a file's extension is a field of `SiteFile`. */
module ChannelsValidate {

  datatype Option<T> = None | Some(value: T)

  /** One `<channel>` element of a site file, as the parser returns it. */
  datatype Entry = Entry(siteId: string, lang: Option<string>, xmltvId: Option<string>, name: string)

  /** The three kinds of validation error. */
  datatype ErrorKind = Duplicate | WrongLang | WrongXmltvId

  /** An error carries a copy of the offending entry, for the report. */
  datatype ValidationError = ValidationError(kind: ErrorKind, entry: Entry)

  /** A file handed to the command: its path, its extension and, if it is
      parsed, the entries the parser yields for it. */
  datatype SiteFile = SiteFile(path: string, extension: string, entries: seq<Entry>)

  /** The position of a kind within one entry's errors: the order in which
      the three checks run. */
  function Rank(k: ErrorKind): nat
  {
    match k
    case Duplicate => 0
    case WrongLang => 1
    case WrongXmltvId => 2
  }

  /** The first segment of `s.split('@')`: everything before the first `@`,
      or all of `s` when it has no `@`. */
  function SplitPrefix(s: string): (r: string)
    ensures r <= s
    ensures '@' !in r
    ensures |r| == |s| || s[|r|] == '@'
  {
    if s == [] || s[0] == '@' then [] else [s[0]] + SplitPrefix(s[1..])
  }

  /** `channel.lang ?? ''`: an absent language counts as the empty code. */
  function LangCode(e: Entry): string
  {
    match e.lang
    case Some(l) => l
    case None => ""
  }

  /** The truthiness of `channel.xmltv_id`: present and not empty. */
  predicate HasXmltvId(e: Entry)
  {
    e.xmltvId.Some? && e.xmltvId.value != ""
  }

  /** How many errors of kind `k` a list holds. */
  function CountKind(errs: seq<ValidationError>, k: ErrorKind): (n: nat)
    ensures n <= |errs|
  {
    if errs == [] then 0
    else (if errs[0].kind == k then 1 else 0) + CountKind(errs[1..], k)
  }

  /** The errors one entry contributes, given the site ids seen before it in
      the same file. */
  function EntryErrors(e: Entry, seen: set<string>, langs: set<string>, canon: set<string>)
    : (r: seq<ValidationError>)
    ensures |r| <= 3
    ensures forall j :: 0 <= j < |r| ==> r[j].entry == e
    ensures forall a, b :: 0 <= a < b < |r| ==> Rank(r[a].kind) < Rank(r[b].kind)
  {
    (if e.siteId in seen then [ValidationError(Duplicate, e)] else [])
    + (if LangCode(e) !in langs then [ValidationError(WrongLang, e)] else [])
    + (if HasXmltvId(e) && SplitPrefix(e.xmltvId.value) !in canon
       then [ValidationError(WrongXmltvId, e)] else [])
  }

  /** The site ids of a sequence of entries. */
  function SiteIds(es: seq<Entry>): set<string>
  {
    set j | 0 <= j < |es| :: es[j].siteId
  }

  /** The errors of one parsed file: each entry's errors, in entry order, with
      the duplicate check looking only at earlier entries of the same file. */
  function FileErrors(entries: seq<Entry>, langs: set<string>, canon: set<string>)
    : (r: seq<ValidationError>)
    ensures |r| <= 3 * |entries|
    decreases |entries|
  {
    if entries == [] then []
    else
      var n := |entries| - 1;
      FileErrors(entries[..n], langs, canon)
      + EntryErrors(entries[n], SiteIds(entries[..n]), langs, canon)
  }

  /** What a file adds to the run: nothing unless its extension is `xml`. */
  function FileContribution(f: SiteFile, langs: set<string>, canon: set<string>)
    : seq<ValidationError>
  {
    if f.extension == "xml" then FileErrors(f.entries, langs, canon) else []
  }

  /** Every error of a run, file after file. */
  function AllErrors(files: seq<SiteFile>, langs: set<string>, canon: set<string>)
    : seq<ValidationError>
    decreases |files|
  {
    if files == [] then []
    else
      var n := |files| - 1;
      AllErrors(files[..n], langs, canon) + FileContribution(files[n], langs, canon)
  }

  /** The number of files with at least one error. */
  function FilesWithErrors(files: seq<SiteFile>, langs: set<string>, canon: set<string>): nat
    decreases |files|
  {
    if files == [] then 0
    else
      var n := |files| - 1;
      FilesWithErrors(files[..n], langs, canon) + FileFlag(files[n], langs, canon)
  }

  /** One if the file adds at least one error, zero otherwise. */
  function FileFlag(f: SiteFile, langs: set<string>, canon: set<string>): nat
  {
    if |FileContribution(f, langs, canon)| == 0 then 0 else 1
  }

  /** The number of files the run parses, those with extension `xml`. */
  function XmlFileCount(files: seq<SiteFile>): nat
    decreases |files|
  {
    if files == [] then 0
    else
      var n := |files| - 1;
      XmlFileCount(files[..n]) + (if files[n].extension == "xml" then 1 else 0)
  }

  lemma SiteIdsSnoc(es: seq<Entry>, e: Entry)
    ensures SiteIds(es + [e]) == SiteIds(es) + {e.siteId}
  {
    var s := es + [e];
    forall x | x in SiteIds(es) ensures x in SiteIds(s) {
      var j :| 0 <= j < |es| && es[j].siteId == x;
      assert s[j] == es[j];
    }
    assert s[|es|] == e;
  }

  /** Appending an entry to a file appends that entry's errors, checked
      against the site ids of the entries before it. */
  lemma FileErrorsSnoc(es: seq<Entry>, e: Entry, langs: set<string>, canon: set<string>)
    ensures FileErrors(es + [e], langs, canon)
         == FileErrors(es, langs, canon) + EntryErrors(e, SiteIds(es), langs, canon)
  {
    var s := es + [e];
    assert s[..|s| - 1] == es;
    assert s[|s| - 1] == e;
  }

  /** The body of the `forEach` callback for one entry: record a new site id
      or report a duplicate, then check the language, then, for a non-empty
      `xmltv_id`, the canonical reference; each error also bumps the total. */
  method CheckEntry(channel: Entry, bufferBySiteId: map<string, bool>, langs: set<string>,
                    canon: set<string>, errors: seq<ValidationError>, total: nat)
    returns (buffer: map<string, bool>, errors': seq<ValidationError>, total': nat)
    ensures buffer.Keys == bufferBySiteId.Keys + {channel.siteId}
    ensures errors' == errors + EntryErrors(channel, bufferBySiteId.Keys, langs, canon)
    ensures total' == total + |EntryErrors(channel, bufferBySiteId.Keys, langs, canon)|
  {
    buffer, errors', total' := bufferBySiteId, errors, total;

    if channel.siteId !in buffer {
      buffer := buffer[channel.siteId := true];
    } else {
      errors' := errors' + [ValidationError(Duplicate, channel)];
      total' := total' + 1;
    }

    if LangCode(channel) !in langs {
      errors' := errors' + [ValidationError(WrongLang, channel)];
      total' := total' + 1;
    }

    if HasXmltvId(channel) {
      var channelId := SplitPrefix(channel.xmltvId.value);
      if channelId !in canon {
        errors' := errors' + [ValidationError(WrongXmltvId, channel)];
        total' := total' + 1;
      }
    }
  }

  /** The per-file pass: one left-to-right walk over the entries with a fresh
      dictionary of seen site ids; every error is appended to `errors` and
      counted into the running total. */
  method ValidateFile(entries: seq<Entry>, langs: set<string>, canon: set<string>, totalErrors: nat)
    returns (errors: seq<ValidationError>, total: nat)
    ensures errors == FileErrors(entries, langs, canon)
    ensures total == totalErrors + |errors|
  {
    var bufferBySiteId: map<string, bool> := map[];
    errors := [];
    total := totalErrors;
    var i := 0;
    while i < |entries|
      invariant 0 <= i <= |entries|
      invariant bufferBySiteId.Keys == SiteIds(entries[..i])
      invariant errors == FileErrors(entries[..i], langs, canon)
      invariant total == totalErrors + |errors|
    {
      assert entries[..i + 1] == entries[..i] + [entries[i]];
      FileErrorsSnoc(entries[..i], entries[i], langs, canon);
      SiteIdsSnoc(entries[..i], entries[i]);
      bufferBySiteId, errors, total := CheckEntry(entries[i], bufferBySiteId, langs, canon, errors, total);
      i := i + 1;
    }
    assert entries[..i] == entries;
  }

  /** The batch loop of the command: skip files that are not `xml`, validate
      the others, count the files with errors, and fail with status 1 exactly
      when some error was found. */
  method Run(files: seq<SiteFile>, langs: set<string>, canon: set<string>)
    returns (totalFiles: nat, totalErrors: nat, exitCode: int)
    ensures totalErrors == |AllErrors(files, langs, canon)|
    ensures totalFiles == FilesWithErrors(files, langs, canon)
    ensures exitCode == 1 <==> AllErrors(files, langs, canon) != []
    ensures exitCode == 0 <==> AllErrors(files, langs, canon) == []
  {
    totalFiles, totalErrors := 0, 0;
    ghost var found: seq<ValidationError> := [];
    for i := 0 to |files|
      invariant found == AllErrors(files[..i], langs, canon)
      invariant totalErrors == |found|
      invariant totalFiles == FilesWithErrors(files[..i], langs, canon)
    {
      var file := files[i];
      assert files[..i + 1][..i] == files[..i];
      if file.extension != "xml" {
        continue;
      }
      var errors;
      errors, totalErrors := ValidateFile(file.entries, langs, canon, totalErrors);
      found := found + errors;
      if |errors| > 0 {
        totalFiles := totalFiles + 1;
      }
    }
    assert files[..|files|] == files;
    exitCode := if totalErrors > 0 then 1 else 0;
  }
}
