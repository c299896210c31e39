/** What the validation pass guarantees: per-entry checks, the order of the
    errors, duplicates counted within a file only, and how the totals and the
    exit status relate to the files. */
module ChannelsValidateProperties {
  import opened ChannelsValidate

  /** The errors of entry `i` of a file: those of `EntryErrors` with the site
      ids of the entries before it. */
  function ReportAt(entries: seq<Entry>, i: nat, langs: set<string>, canon: set<string>)
    : seq<ValidationError>
    requires i < |entries|
  {
    EntryErrors(entries[i], SiteIds(entries[..i]), langs, canon)
  }

  /** The per-entry reports of a file, one per entry, in entry order. */
  function EntryReports(entries: seq<Entry>, langs: set<string>, canon: set<string>)
    : (rs: seq<seq<ValidationError>>)
    ensures |rs| == |entries|
  {
    seq(|entries|, i requires 0 <= i < |entries| => ReportAt(entries, i, langs, canon))
  }

  /** Concatenation of a sequence of lists. */
  function Flatten(rs: seq<seq<ValidationError>>): seq<ValidationError>
    decreases |rs|
  {
    if rs == [] then [] else Flatten(rs[..|rs| - 1]) + rs[|rs| - 1]
  }

  predicate DistinctSiteIds(entries: seq<Entry>)
  {
    forall i, j :: 0 <= i < j < |entries| ==> entries[i].siteId != entries[j].siteId
  }

  // ---------------------------------------------------------------- counting

  lemma {:induction false} CountKindAppend(a: seq<ValidationError>, b: seq<ValidationError>, k: ErrorKind)
    ensures CountKind(a + b, k) == CountKind(a, k) + CountKind(b, k)
  {
    if a == [] {
      assert a + b == b;
    } else {
      assert (a + b)[1..] == a[1..] + b;
      CountKindAppend(a[1..], b, k);
    }
  }

  lemma {:induction false} CountKindZero(errs: seq<ValidationError>, k: ErrorKind)
    ensures CountKind(errs, k) == 0 <==> forall j :: 0 <= j < |errs| ==> errs[j].kind != k
  {
    if errs != [] {
      CountKindZero(errs[1..], k);
      assert forall j :: 1 <= j < |errs| ==> errs[j] == errs[1..][j - 1];
    }
  }

  // ----------------------------------------------------------- one entry

  /** The three checks are independent: each fires at most once per entry,
      and exactly on its own condition, whatever the other two decide. */
  lemma EntryChecks(e: Entry, seen: set<string>, langs: set<string>, canon: set<string>)
    ensures CountKind(EntryErrors(e, seen, langs, canon), Duplicate)
         == (if e.siteId in seen then 1 else 0)
    ensures CountKind(EntryErrors(e, seen, langs, canon), WrongLang)
         == (if LangCode(e) in langs then 0 else 1)
    ensures CountKind(EntryErrors(e, seen, langs, canon), WrongXmltvId)
         == (if HasXmltvId(e) && SplitPrefix(e.xmltvId.value) !in canon then 1 else 0)
  {
    var d: seq<ValidationError> := if e.siteId in seen then [ValidationError(Duplicate, e)] else [];
    var l: seq<ValidationError> := if LangCode(e) !in langs then [ValidationError(WrongLang, e)] else [];
    var x: seq<ValidationError> :=
      if HasXmltvId(e) && SplitPrefix(e.xmltvId.value) !in canon
      then [ValidationError(WrongXmltvId, e)] else [];
    assert EntryErrors(e, seen, langs, canon) == d + l + x;
    assert CountKind(d, Duplicate) == |d| && CountKind(d, WrongLang) == 0 && CountKind(d, WrongXmltvId) == 0;
    assert CountKind(l, WrongLang) == |l| && CountKind(l, Duplicate) == 0 && CountKind(l, WrongXmltvId) == 0;
    assert CountKind(x, WrongXmltvId) == |x| && CountKind(x, Duplicate) == 0 && CountKind(x, WrongLang) == 0;
    CountKindAppend(d + l, x, Duplicate);
    CountKindAppend(d, l, Duplicate);
    CountKindAppend(d + l, x, WrongLang);
    CountKindAppend(d, l, WrongLang);
    CountKindAppend(d + l, x, WrongXmltvId);
    CountKindAppend(d, l, WrongXmltvId);
  }

  /** The first entry with a given site id in a file gets no `duplicate`
      error; every later entry with the same site id gets exactly one. */
  lemma DuplicateOnLaterOccurrence(entries: seq<Entry>, i: nat, langs: set<string>, canon: set<string>)
    requires i < |entries|
    ensures CountKind(ReportAt(entries, i, langs, canon), Duplicate)
         == (if exists j :: 0 <= j < i && entries[j].siteId == entries[i].siteId then 1 else 0)
  {
    EntryChecks(entries[i], SiteIds(entries[..i]), langs, canon);
    var p := entries[..i];
    if exists j :: 0 <= j < i && entries[j].siteId == entries[i].siteId {
      var j :| 0 <= j < i && entries[j].siteId == entries[i].siteId;
      assert p[j] == entries[j];
    } else {
      forall j | 0 <= j < |p| ensures p[j].siteId != entries[i].siteId {
        assert p[j] == entries[j];
      }
    }
  }

  /** An entry gets a `wrong_lang` error exactly when its language, the empty
      code when absent, is not a known code, whatever its position. */
  lemma WrongLangIffUnknownCode(entries: seq<Entry>, i: nat, langs: set<string>, canon: set<string>)
    requires i < |entries|
    ensures CountKind(ReportAt(entries, i, langs, canon), WrongLang)
         == (if LangCode(entries[i]) in langs then 0 else 1)
    ensures entries[i].lang == None ==>
              CountKind(ReportAt(entries, i, langs, canon), WrongLang) == (if "" in langs then 0 else 1)
  {
    EntryChecks(entries[i], SiteIds(entries[..i]), langs, canon);
  }

  /** An absent or empty `xmltv_id` never gives a `wrong_xmltv_id` error. */
  lemma NoXmltvIdNoReferenceError(entries: seq<Entry>, i: nat, langs: set<string>, canon: set<string>)
    requires i < |entries|
    requires entries[i].xmltvId == None || entries[i].xmltvId == Some("")
    ensures CountKind(ReportAt(entries, i, langs, canon), WrongXmltvId) == 0
  {
    EntryChecks(entries[i], SiteIds(entries[..i]), langs, canon);
  }

  /** Whatever follows an `@` leaves the first segment unchanged. */
  lemma {:induction false} SplitPrefixIgnoresSuffix(x: string, v: string)
    ensures SplitPrefix(x + "@" + v) == SplitPrefix(x)
  {
    var s := x + "@" + v;
    if x != [] && x[0] != '@' {
      assert s[0] == x[0];
      assert s[1..] == x[1..] + "@" + v;
      SplitPrefixIgnoresSuffix(x[1..], v);
    }
  }

  /** A string without `@` is its own first segment. */
  lemma SplitPrefixNoSeparator(s: string)
    requires '@' !in s
    ensures SplitPrefix(s) == s
  {
    var r := SplitPrefix(s);
    assert r == s[..|r|];
  }

  /** For a present, non-empty `xmltv_id`, the `wrong_xmltv_id` error fires
      exactly when the part before its first `@` is not a canonical id. */
  lemma ReferenceErrorIffUnknownChannel(entries: seq<Entry>, i: nat, langs: set<string>, canon: set<string>)
    requires i < |entries|
    requires HasXmltvId(entries[i])
    ensures CountKind(ReportAt(entries, i, langs, canon), WrongXmltvId)
         == (if SplitPrefix(entries[i].xmltvId.value) in canon then 0 else 1)
  {
    EntryChecks(entries[i], SiteIds(entries[..i]), langs, canon);
  }

  /** For `xmltv_id` of the form `<id>@<variant>` with no `@` in `<id>`, the
      reference check looks at `<id>` only: the variant has no effect. */
  lemma ReferenceCheckIgnoresVariant(entries: seq<Entry>, i: nat, id: string, variant: string,
                                     langs: set<string>, canon: set<string>)
    requires i < |entries|
    requires '@' !in id
    requires entries[i].xmltvId == Some(id + "@" + variant)
    ensures CountKind(ReportAt(entries, i, langs, canon), WrongXmltvId) == (if id in canon then 0 else 1)
  {
    SplitPrefixIgnoresSuffix(id, variant);
    SplitPrefixNoSeparator(id);
    assert (id + "@" + variant)[|id|] == '@';
    ReferenceErrorIffUnknownChannel(entries, i, langs, canon);
  }

  // ----------------------------------------------------------- one file

  lemma {:induction false} FlattenAppend(rs: seq<seq<ValidationError>>, r: seq<ValidationError>)
    ensures Flatten(rs + [r]) == Flatten(rs) + r
  {
    assert (rs + [r])[..|rs|] == rs;
  }

  /** The file's errors are the entries' reports laid end to end, in entry
      order; each report holds at most three errors, all copies of its
      entry, in the order duplicate, wrong_lang, wrong_xmltv_id. */
  lemma FileErrorsInEntryOrder(entries: seq<Entry>, langs: set<string>, canon: set<string>)
    ensures FileErrors(entries, langs, canon) == Flatten(EntryReports(entries, langs, canon))
    ensures forall i :: 0 <= i < |entries| ==>
              var r := EntryReports(entries, langs, canon)[i];
              |r| <= 3
              && (forall j :: 0 <= j < |r| ==> r[j].entry == entries[i])
              && (forall a, b :: 0 <= a < b < |r| ==> Rank(r[a].kind) < Rank(r[b].kind))
  {
    FileErrorsFlatten(entries, langs, canon);
  }

  /** Helper for `FileErrorsInEntryOrder`: the concatenation, by induction. */
  lemma {:induction false} FileErrorsFlatten(entries: seq<Entry>, langs: set<string>, canon: set<string>)
    ensures FileErrors(entries, langs, canon) == Flatten(EntryReports(entries, langs, canon))
    decreases |entries|
  {
    if entries != [] {
      var n := |entries| - 1;
      var init := entries[..n];
      FileErrorsFlatten(init, langs, canon);
      var rs := EntryReports(entries, langs, canon);
      var rsInit := EntryReports(init, langs, canon);
      forall i | 0 <= i < n ensures rsInit[i] == rs[i] {
        assert init[..i] == entries[..i];
      }
      assert rs == rsInit + [rs[n]];
      FlattenAppend(rsInit, rs[n]);
      assert entries == init + [entries[n]];
      FileErrorsSnoc(init, entries[n], langs, canon);
    }
  }

  /** The number of `duplicate` errors in a file is its entry count minus its
      number of distinct site ids. */
  lemma {:induction false} DuplicateCount(entries: seq<Entry>, langs: set<string>, canon: set<string>)
    ensures CountKind(FileErrors(entries, langs, canon), Duplicate) == |entries| - |SiteIds(entries)|
    decreases |entries|
  {
    if entries == [] {
      assert SiteIds(entries) == {};
    } else {
      var n := |entries| - 1;
      var init := entries[..n];
      DuplicateCount(init, langs, canon);
      assert entries == init + [entries[n]];
      SiteIdsSnoc(init, entries[n]);
      EntryChecks(entries[n], SiteIds(init), langs, canon);
      CountKindAppend(FileErrors(init, langs, canon),
                      EntryErrors(entries[n], SiteIds(init), langs, canon), Duplicate);
      SiteIdsBound(init);
    }
  }

  lemma {:induction false} SiteIdsBound(es: seq<Entry>)
    ensures |SiteIds(es)| <= |es|
    decreases |es|
  {
    if es == [] {
      assert SiteIds(es) == {};
    } else {
      var n := |es| - 1;
      SiteIdsBound(es[..n]);
      assert es == es[..n] + [es[n]];
      SiteIdsSnoc(es[..n], es[n]);
    }
  }

  /** A file whose site ids are all different gets no `duplicate` error. */
  lemma {:induction false} DistinctSiteIdsNoDuplicate(entries: seq<Entry>, langs: set<string>, canon: set<string>)
    requires DistinctSiteIds(entries)
    ensures CountKind(FileErrors(entries, langs, canon), Duplicate) == 0
    decreases |entries|
  {
    if entries != [] {
      var n := |entries| - 1;
      var init := entries[..n];
      assert DistinctSiteIds(init) by {
        forall i, j | 0 <= i < j < |init| ensures init[i].siteId != init[j].siteId {
          assert init[i] == entries[i] && init[j] == entries[j];
        }
      }
      DistinctSiteIdsNoDuplicate(init, langs, canon);
      forall j | 0 <= j < |init| ensures init[j].siteId != entries[n].siteId {
        assert init[j] == entries[j];
      }
      EntryChecks(entries[n], SiteIds(init), langs, canon);
      CountKindAppend(FileErrors(init, langs, canon),
                      EntryErrors(entries[n], SiteIds(init), langs, canon), Duplicate);
    }
  }

  // ----------------------------------------------------------- the batch

  lemma {:induction false} AllErrorsAppend(a: seq<SiteFile>, b: seq<SiteFile>, langs: set<string>, canon: set<string>)
    ensures AllErrors(a + b, langs, canon) == AllErrors(a, langs, canon) + AllErrors(b, langs, canon)
    decreases |b|
  {
    if b == [] {
      assert a + b == a;
    } else {
      var n := |b| - 1;
      assert b == b[..n] + [b[n]];
      assert a + b == (a + b[..n]) + [b[n]];
      AllErrorsSnoc(a + b[..n], b[n], langs, canon);
      AllErrorsSnoc(b[..n], b[n], langs, canon);
      AllErrorsAppend(a, b[..n], langs, canon);
    }
  }

  lemma AllErrorsSnoc(files: seq<SiteFile>, f: SiteFile, langs: set<string>, canon: set<string>)
    ensures AllErrors(files + [f], langs, canon) == AllErrors(files, langs, canon) + FileContribution(f, langs, canon)
  {
    var s := files + [f];
    assert s[..|s| - 1] == files;
  }

  lemma FilesWithErrorsSnoc(files: seq<SiteFile>, f: SiteFile, langs: set<string>, canon: set<string>)
    ensures FilesWithErrors(files + [f], langs, canon) == FilesWithErrors(files, langs, canon) + FileFlag(f, langs, canon)
  {
    var s := files + [f];
    assert s[..|s| - 1] == files;
  }

  lemma {:induction false} FilesWithErrorsAppend(a: seq<SiteFile>, b: seq<SiteFile>, langs: set<string>, canon: set<string>)
    ensures FilesWithErrors(a + b, langs, canon) == FilesWithErrors(a, langs, canon) + FilesWithErrors(b, langs, canon)
    decreases |b|
  {
    if b == [] {
      assert a + b == a;
    } else {
      var n := |b| - 1;
      assert b == b[..n] + [b[n]];
      assert a + b == (a + b[..n]) + [b[n]];
      FilesWithErrorsSnoc(a + b[..n], b[n], langs, canon);
      FilesWithErrorsSnoc(b[..n], b[n], langs, canon);
      FilesWithErrorsAppend(a, b[..n], langs, canon);
    }
  }

  /** A file whose extension is not `xml` adds no error, wherever it stands
      in the list. */
  lemma NonXmlFileAddsNoError(a: seq<SiteFile>, f: SiteFile, b: seq<SiteFile>, langs: set<string>, canon: set<string>)
    requires f.extension != "xml"
    ensures AllErrors(a + [f] + b, langs, canon) == AllErrors(a + b, langs, canon)
  {
    assert FileContribution(f, langs, canon) == [];
    AllErrorsSnoc(a, f, langs, canon);
    assert AllErrors(a + [f], langs, canon) == AllErrors(a, langs, canon);
    AllErrorsAppend(a + [f], b, langs, canon);
    AllErrorsAppend(a, b, langs, canon);
  }

  /** A file whose extension is not `xml` is not counted, wherever it stands
      in the list. */
  lemma NonXmlFileNotCounted(a: seq<SiteFile>, f: SiteFile, b: seq<SiteFile>, langs: set<string>, canon: set<string>)
    requires f.extension != "xml"
    ensures FilesWithErrors(a + [f] + b, langs, canon) == FilesWithErrors(a + b, langs, canon)
  {
    assert FileFlag(f, langs, canon) == 0;
    FilesWithErrorsSnoc(a, f, langs, canon);
    FilesWithErrorsAppend(a + [f], b, langs, canon);
    FilesWithErrorsAppend(a, b, langs, canon);
  }

  /** A site id repeated only across different files never gives a
      `duplicate` error: the seen-id dictionary starts empty for each file. */
  lemma NoDuplicateAcrossFiles(files: seq<SiteFile>, langs: set<string>, canon: set<string>)
    requires forall k :: 0 <= k < |files| ==> DistinctSiteIds(files[k].entries)
    ensures forall j :: 0 <= j < |AllErrors(files, langs, canon)| ==> AllErrors(files, langs, canon)[j].kind != Duplicate
  {
    NoDuplicateAcrossFilesCount(files, langs, canon);
    CountKindZero(AllErrors(files, langs, canon), Duplicate);
  }

  /** Helper for `NoDuplicateAcrossFiles`: the same fact as a zero count. */
  lemma {:induction false} NoDuplicateAcrossFilesCount(files: seq<SiteFile>, langs: set<string>, canon: set<string>)
    requires forall k :: 0 <= k < |files| ==> DistinctSiteIds(files[k].entries)
    ensures CountKind(AllErrors(files, langs, canon), Duplicate) == 0
    decreases |files|
  {
    if files != [] {
      var n := |files| - 1;
      NoDuplicateAcrossFilesCount(files[..n], langs, canon);
      if files[n].extension == "xml" {
        DistinctSiteIdsNoDuplicate(files[n].entries, langs, canon);
      }
      CountKindAppend(AllErrors(files[..n], langs, canon),
                      FileContribution(files[n], langs, canon), Duplicate);
    }
  }

  /** The counted files are among the parsed ones, each adds at least one
      error, and no file is counted exactly when there is no error. */
  lemma {:induction false} TotalsRelation(files: seq<SiteFile>, langs: set<string>, canon: set<string>)
    ensures FilesWithErrors(files, langs, canon) <= XmlFileCount(files) <= |files|
    ensures FilesWithErrors(files, langs, canon) <= |AllErrors(files, langs, canon)|
    ensures FilesWithErrors(files, langs, canon) == 0 <==> AllErrors(files, langs, canon) == []
    decreases |files|
  {
    if files != [] {
      TotalsRelation(files[..|files| - 1], langs, canon);
    }
  }

  /** The run is clean exactly when every file is: so it ends with status 0
      exactly when no file adds an error, in particular with no files. */
  lemma {:induction false} CleanRunIffCleanFiles(files: seq<SiteFile>, langs: set<string>, canon: set<string>)
    ensures AllErrors(files, langs, canon) == []
        <==> forall k :: 0 <= k < |files| ==> FileContribution(files[k], langs, canon) == []
    decreases |files|
  {
    if files != [] {
      var n := |files| - 1;
      var init := files[..n];
      var last := FileContribution(files[n], langs, canon);
      CleanRunIffCleanFiles(init, langs, canon);
      assert files == init + [files[n]];
      AllErrorsSnoc(init, files[n], langs, canon);
      assert AllErrors(files, langs, canon) == AllErrors(init, langs, canon) + last;
      if AllErrors(files, langs, canon) == [] {
        assert AllErrors(init, langs, canon) == [] && last == [];
        forall k | 0 <= k < |files| ensures FileContribution(files[k], langs, canon) == [] {
          if k < n {
            assert files[k] == init[k];
          }
        }
      } else if AllErrors(init, langs, canon) != [] {
        var k :| 0 <= k < n && FileContribution(init[k], langs, canon) != [];
        assert files[k] == init[k];
      } else {
        assert last != [];
      }
    }
  }

  // ----------------------------------------------------------- scenarios

  /** The errors of a one-entry file and of a two-entry file. */
  lemma SmallFiles(first: Entry, second: Entry, langs: set<string>, canon: set<string>)
    ensures FileErrors([first], langs, canon) == EntryErrors(first, {}, langs, canon)
    ensures FileErrors([first, second], langs, canon)
         == EntryErrors(first, {}, langs, canon) + EntryErrors(second, {first.siteId}, langs, canon)
  {
    var es := [first, second];
    assert [first][..0] == [];
    assert SiteIds([]) == {};
    assert es[..1] == [first];
    SiteIdsSnoc([], first);
    assert [] + [first] == [first];
  }

  /** Two entries with the same site id and otherwise valid fields, such as
      `abc` with `en` and `abc.tv@HD`, `abc.tv@SD`: one `duplicate` error, on
      the second entry, and nothing else. */
  lemma ScenarioDuplicateSiteId(siteId: string, lang: string, id: string, v1: string, v2: string,
                                langs: set<string>, canon: set<string>)
    requires lang in langs && '@' !in id && id in canon
    ensures var first := Entry(siteId, Some(lang), Some(id + "@" + v1), "First");
            var second := Entry(siteId, Some(lang), Some(id + "@" + v2), "Second");
            FileErrors([first, second], langs, canon) == [ValidationError(Duplicate, second)]
  {
    var first := Entry(siteId, Some(lang), Some(id + "@" + v1), "First");
    var second := Entry(siteId, Some(lang), Some(id + "@" + v2), "Second");
    SplitPrefixIgnoresSuffix(id, v1);
    SplitPrefixIgnoresSuffix(id, v2);
    SplitPrefixNoSeparator(id);
    SmallFiles(first, second, langs, canon);
  }

  /** An entry with an unknown language code gets exactly one error. */
  lemma ScenarioUnknownLanguage(langs: set<string>, canon: set<string>)
    requires "xx" !in langs
    ensures var e := Entry("one", Some("xx"), None, "One");
            FileErrors([e], langs, canon) == [ValidationError(WrongLang, e)]
  {
    var e := Entry("one", Some("xx"), None, "One");
    SmallFiles(e, e, langs, canon);
  }

  /** An entry whose `xmltv_id` names an unknown canonical channel, such
      as `unknown.channel@site1`, gets exactly one error, a
      `wrong_xmltv_id`. */
  lemma ScenarioUnknownChannel(id: string, variant: string, langs: set<string>, canon: set<string>)
    requires "en" in langs && '@' !in id && id !in canon
    ensures var e := Entry("one", Some("en"), Some(id + "@" + variant), "One");
            FileErrors([e], langs, canon) == [ValidationError(WrongXmltvId, e)]
  {
    var e := Entry("one", Some("en"), Some(id + "@" + variant), "One");
    SplitPrefixIgnoresSuffix(id, variant);
    SplitPrefixNoSeparator(id);
    SmallFiles(e, e, langs, canon);
  }

  /** A site id that appears once in each of two files: no error at all, and
      the run ends normally. */
  lemma ScenarioSameSiteIdInTwoFiles(langs: set<string>, canon: set<string>)
    requires "en" in langs
    ensures var e := Entry("abc", Some("en"), None, "ABC");
            var files := [SiteFile("a.channels.xml", "xml", [e]), SiteFile("b.channels.xml", "xml", [e])];
            AllErrors(files, langs, canon) == [] && FilesWithErrors(files, langs, canon) == 0
  {
    var e := Entry("abc", Some("en"), None, "ABC");
    var files := [SiteFile("a.channels.xml", "xml", [e]), SiteFile("b.channels.xml", "xml", [e])];
    SmallFiles(e, e, langs, canon);
    assert FileErrors([e], langs, canon) == [];
    assert files == [] + [files[0]] + [files[1]];
    AllErrorsSnoc([], files[0], langs, canon);
    AllErrorsSnoc([files[0]], files[1], langs, canon);
    FilesWithErrorsSnoc([], files[0], langs, canon);
    FilesWithErrorsSnoc([files[0]], files[1], langs, canon);
  }

  /** A run to show that the contract of `Run` decides the outcome: one clean
      entry, then no files at all; both end with status 0. */
  method ScenarioCleanRuns(langs: set<string>, canon: set<string>)
    requires "en" in langs
  {
    var e := Entry("one", Some("en"), None, "One");
    SmallFiles(e, e, langs, canon);
    var files := [SiteFile("a.channels.xml", "xml", [e])];
    assert files[..0] == [];
    var totalFiles, totalErrors, exitCode := Run(files, langs, canon);
    assert totalFiles == 0 && totalErrors == 0 && exitCode == 0;
    totalFiles, totalErrors, exitCode := Run([], langs, canon);
    assert totalFiles == 0 && totalErrors == 0 && exitCode == 0;
  }
}
