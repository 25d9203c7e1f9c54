/** The configuration directory and the refresh of the radar site list: the
    downloaded siteinfo.txt is compared with the cached copy through a
    temporary file, and the configuration table is rebuilt only when the
    cache changed or the table is missing. */
module UpdateChecker {
  import opened Results
  import SectionParser
  import TableBuilder

  const ConfigDir: string := "/srv/data/s3car-server/config"
  /** The cached download. */
  const SiteInfoFile: string := ConfigDir + "/siteinfo.txt"
  /** Where the download is staged before it is compared with the cache. */
  const TempFile: string := ConfigDir + "/tmp_test.txt"
  /** The configuration table the refresh writes. */
  const OutputFile: string := ConfigDir + "/radar_site_list.csv"

  datatype UpdateError = EmptyContent   // the download decoded to no text

  /** What check_update returns, and the directory it leaves behind. */
  datatype Outcome = Outcome(updated: bool, files: map<string, string>)

  /** How a refresh ends. */
  datatype RefreshOutcome =
    | UpToDate                                // nothing changed, the table exists
    | Written                                 // the table was (re)written
    | FetchFailed(fetchError: UpdateError)    // check_update raised
    | BuildFailed(buildError: TableBuilder.BuildError)  // a band lookup raised

  /** The three paths are different files. */
  lemma PathsDistinct()
    ensures SiteInfoFile != TempFile && SiteInfoFile != OutputFile && TempFile != OutputFile
  {
    var n := |ConfigDir| + 1;
    assert SiteInfoFile[n] == 's' && TempFile[n] == 't' && OutputFile[n] == 'r';
  }

  /** check_update on a directory `files` for a download `content`: the
      first download is written to the cache; later ones are staged in the
      temporary file, moved over the cache when they differ from it, and
      the temporary file is removed. */
  function CheckUpdateSpec(files: map<string, string>, content: string): (r: Result<Outcome, UpdateError>)
    ensures r.Failure? <==> |content| == 0
    ensures r.Success? ==> (r.value.updated <==> SiteInfoFile !in files || files[SiteInfoFile] != content)
    ensures r.Success? && SiteInfoFile !in files ==> r.value.files == files[SiteInfoFile := content]
    ensures r.Success? && SiteInfoFile in files ==>
              r.value.files == (files - {TempFile})[SiteInfoFile := content]
  {
    PathsDistinct();
    if |content| == 0 then Failure(EmptyContent)
    else if SiteInfoFile !in files then Success(Outcome(true, files[SiteInfoFile := content]))
    else
      var staged := files[TempFile := content];
      if staged[SiteInfoFile] == staged[TempFile] then
        assert staged - {TempFile} == (files - {TempFile})[SiteInfoFile := content];
        Success(Outcome(false, staged - {TempFile}))
      else
        var moved := (staged - {SiteInfoFile})[SiteInfoFile := staged[TempFile]] - {TempFile};
        assert moved == (files - {TempFile})[SiteInfoFile := content];
        Success(Outcome(true, moved))
  }

  /** The configuration table of a site-information text: both sections are
      extracted from its lines, read as tables, joined and transformed. It
      is built exactly when every site read from the site section has a
      type row, all of whose wavelengths some IEEE band holds; a failure
      names one of those sites. */
  function BuildConfig(
    text: string,
    splitLines: string -> seq<string>,
    readSites: seq<string> -> seq<TableBuilder.SiteRecord>,
    readTypes: seq<string> -> seq<TableBuilder.TypeRecord>
  ): (r: Result<seq<TableBuilder.ConfigRow>, TableBuilder.BuildError>)
    ensures var sites := readSites(SectionParser.ExtractSection(splitLines(text), SectionParser.SiteSection));
            var types := readTypes(SectionParser.ExtractSection(splitLines(text), SectionParser.TypeSection));
            && (r.Success? <==> TableBuilder.AllSitesClassifiable(sites, types))
            && (r.Failure? ==> exists s :: s in sites && s.id == r.error.siteId)
  {
    var lines := splitLines(text);
    var sites := readSites(SectionParser.ExtractSection(lines, SectionParser.SiteSection));
    var types := readTypes(SectionParser.ExtractSection(lines, SectionParser.TypeSection));
    TableBuilder.BuildSucceedsExactly(sites, types);
    TableBuilder.Build(sites, types)
  }

  /** The configuration directory: every file present, by path, with its text. */
  class ConfigDirectory {
    var files: map<string, string>

    constructor(initial: map<string, string>)
      ensures files == initial
    {
      files := initial;
    }

    predicate IsFile(path: string)
      reads this
    {
      path in files
    }

    /** open(path, "w+").write(content) */
    method WriteFile(path: string, content: string)
      modifies this
      ensures files == old(files)[path := content]
    {
      files := files[path := content];
    }

    /** os.remove(path); `removed` is false where Python raises
        FileNotFoundError. */
    method RemoveFile(path: string) returns (removed: bool)
      modifies this
      ensures removed <==> path in old(files)
      ensures files == old(files) - {path}
    {
      removed := path in files;
      files := files - {path};
    }

    /** os.rename(src, dst) */
    method RenameFile(src: string, dst: string)
      requires src in files
      modifies this
      ensures files == (old(files) - {src})[dst := old(files)[src]]
    {
      files := (files - {src})[dst := files[src]];
    }

    /** check_update, with the download given as `content`. */
    method CheckUpdate(content: string) returns (r: Result<bool, UpdateError>)
      modifies this
      ensures CheckUpdateSpec(old(files), content).Failure? ==>
                r == Failure(EmptyContent) && files == old(files)
      ensures CheckUpdateSpec(old(files), content).Success? ==>
                r == Success(CheckUpdateSpec(old(files), content).value.updated) &&
                files == CheckUpdateSpec(old(files), content).value.files
    {
      PathsDistinct();
      if |content| == 0 {
        return Failure(EmptyContent);
      }
      if !IsFile(SiteInfoFile) {
        WriteFile(SiteInfoFile, content);
        return Success(true);
      }
      WriteFile(TempFile, content);
      var updated := false;
      if files[SiteInfoFile] != files[TempFile] {
        updated := true;
        var _ := RemoveFile(SiteInfoFile);
        RenameFile(TempFile, SiteInfoFile);
      }
      var _ := RemoveFile(TempFile);
      return Success(updated);
    }

    /** main: refresh the cache and rebuild the configuration table unless
        the cache is unchanged and the table already exists. */
    method Refresh(
      content: string,
      splitLines: string -> seq<string>,
      readSites: seq<string> -> seq<TableBuilder.SiteRecord>,
      readTypes: seq<string> -> seq<TableBuilder.TypeRecord>,
      render: seq<TableBuilder.ConfigRow> -> string
    ) returns (outcome: RefreshOutcome)
      modifies this
      ensures CheckUpdateSpec(old(files), content).Failure? ==>
                outcome == FetchFailed(EmptyContent) && files == old(files)
      ensures CheckUpdateSpec(old(files), content).Success? ==>
                var checked := CheckUpdateSpec(old(files), content).value;
                var built := BuildConfig(content, splitLines, readSites, readTypes);
                if !checked.updated && OutputFile in checked.files then
                  outcome == UpToDate && files == checked.files
                else if built.Failure? then
                  outcome == BuildFailed(built.error) && files == checked.files
                else
                  outcome == Written && files == checked.files[OutputFile := render(built.value)]
    {
      var checked := CheckUpdate(content);
      if checked.Failure? {
        return FetchFailed(checked.error);
      }
      if !checked.value && IsFile(OutputFile) {
        return UpToDate;
      }
      var text := files[SiteInfoFile];
      var lines := splitLines(text);
      var siteRows := SectionParser.ParseSection(lines, SectionParser.SiteSection);
      var typeRows := SectionParser.ParseSection(lines, SectionParser.TypeSection);
      match TableBuilder.Build(readSites(siteRows), readTypes(typeRows))
      case Failure(e) =>
        return BuildFailed(e);
      case Success(rows) =>
        WriteFile(OutputFile, render(rows));
        return Written;
    }
  }

  /** A second check with the same download reports no update, keeps the
      cache and clears any temporary file the first one left. */
  lemma SecondCheckReportsNoUpdate(files: map<string, string>, content: string)
    requires |content| > 0
    ensures CheckUpdateSpec(files, content).Success?
    ensures var first := CheckUpdateSpec(files, content).value;
            CheckUpdateSpec(first.files, content) == Success(Outcome(false, first.files - {TempFile}))
  {
    PathsDistinct();
    var first := CheckUpdateSpec(files, content).value;
    assert SiteInfoFile in first.files && first.files[SiteInfoFile] == content;
    assert (first.files - {TempFile})[SiteInfoFile := content] == first.files - {TempFile};
  }

  /** After a successful check the cache holds the download, and no file but
      the cache and the temporary file changed. */
  lemma CheckedCacheHoldsDownload(files: map<string, string>, content: string, path: string)
    requires CheckUpdateSpec(files, content).Success?
    ensures var after := CheckUpdateSpec(files, content).value.files;
            SiteInfoFile in after && after[SiteInfoFile] == content
    ensures var after := CheckUpdateSpec(files, content).value.files;
            path != SiteInfoFile && path != TempFile ==>
              (path in after <==> path in files) && (path in files ==> after[path] == files[path])
  {
    PathsDistinct();
  }

  /** Only the first download leaves the temporary file as it was; every
      later check ends without it. */
  lemma TemporaryFileRemoved(files: map<string, string>, content: string)
    requires CheckUpdateSpec(files, content).Success?
    ensures var after := CheckUpdateSpec(files, content).value.files;
            if SiteInfoFile in files then TempFile !in after
            else (TempFile in after <==> TempFile in files)
  {
    PathsDistinct();
  }

  /** main stops early exactly when the download equals the cached copy and
      the configuration table exists; a first download, a changed download
      or a missing table always leads to a rebuild. */
  lemma RefreshSkippedExactly(files: map<string, string>, content: string)
    requires |content| > 0
    ensures var checked := CheckUpdateSpec(files, content).value;
            (!checked.updated && OutputFile in checked.files) <==>
              (SiteInfoFile in files && files[SiteInfoFile] == content && OutputFile in files)
  {
    PathsDistinct();
  }
}
