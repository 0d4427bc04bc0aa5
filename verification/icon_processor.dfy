/**
 * The icon processor as the object the bot drives: it holds its configuration and
 * changes the output directory file by file. Each method is proved against the
 * functions of `Reconcile` that say what one save, one pass and one deletion run do.
 */
module IconProcessing {
  import opened Wrappers
  import opened Text
  import opened Types
  import opened Naming
  import opened ReactComponent
  import opened Reconcile

  /**
   * A save as the directory saw it: it succeeds exactly when `s` does, a failure
   * carries the same message and leaves the files alone, and a success reports
   * what `s` reports and leaves the files `s` computes.
   */
  predicate SavedAs(r: Result<Saved, string>, s: Result<Save, string>, before: map<string, string>, after: map<string, string>) {
    (r.Success? <==> s.Success?)
    && (r.Failure? ==> r.error == s.error && after == before)
    && (r.Success? ==> r.value == s.value.saved && after == s.value.files)
  }

  /** One save of the formats loop, as the pass function takes it: a failure stops the loop, a success moves on. */
  lemma FormatStep(env: Env, name: string, svg: string, formats: seq<Format>, here: Pass,
                   item: Result<Saved, string>, after: map<string, string>)
    requires formats != []
    requires SavedAs(item, SaveFormat(env, here.files, name, svg, formats[0]), here.files, after)
    ensures item.Failure? ==> RunFormats(env, name, svg, formats, here) == Step(Pass(here.result, after), Some(item.error))
    ensures item.Success? ==> RunFormats(env, name, svg, formats, here)
                              == RunFormats(env, name, svg, formats[1..], Pass(Categorize(here.result, item.value), after))
  {
    RunFormatsHead(env, name, svg, formats, here);
  }

  class IconProcessor {
    const config: Config
    /** The SVGO call, which may throw. */
    const optimize: string -> Result<string, string>
    /** Which filesystem calls fail. */
    const faults: Faults
    /** The output directory: file name to contents. */
    var files: map<string, string>

    constructor(config: Config, optimize: string -> Result<string, string>, faults: Faults, files: map<string, string>)
      ensures this.config == config && this.optimize == optimize && this.faults == faults
      ensures this.files == files
    {
      this.config := config;
      this.optimize := optimize;
      this.faults := faults;
      this.files := files;
    }

    function Environment(): Env {
      Env(config, optimize, faults)
    }

    /**
     * Reads the file, compares, and writes only when the contents differ; a read
     * failure counts as a missing file, a write failure is thrown.
     */
    method WriteIfChanged(fileName: string, content: string) returns (r: Result<Saved, string>)
      modifies this
      ensures SavedAs(r, Reconcile.SaveFile(Environment(), old(files), fileName, content), old(files), files)
    {
      var filePath := JoinPath(config.output.directory, fileName);
      var status := Added;
      if fileName in files && fileName !in faults.unreadable {
        if files[fileName] == content {
          status := Unchanged;
        } else {
          status := Updated;
        }
      }
      if status != Unchanged {
        if fileName in faults.unwritable {
          return Failure(WriteError(filePath));
        }
        files := files[fileName := content];
      }
      return Success(Saved(filePath, status));
    }

    /** `saveSvg`: `${name}.svg` receives the SVG text. */
    method SaveSvg(name: string, svg: string) returns (r: Result<Saved, string>)
      modifies this
      ensures SavedAs(r, SaveFormat(Environment(), old(files), name, svg, Svg), old(files), files)
    {
      r := WriteIfChanged(SvgFileName(name), svg);
    }

    /** `saveReactComponent`: the component source goes to the PascalCase file; an SVG it cannot parse throws before any read. */
    method SaveReactComponent(name: string, svg: string) returns (r: Result<Saved, string>)
      modifies this
      ensures SavedAs(r, SaveFormat(Environment(), old(files), name, svg, React), old(files), files)
    {
      var fileName := ReactFileName(name, config.output.react);
      var code := SvgToReactComponent(name, svg, config.output.react);
      SaveFormatReact(Environment(), files, name, svg);
      if code.Failure? {
        return Failure(code.error);
      }
      r := WriteIfChanged(fileName, code.value);
    }

    /** `readdir`: every file name of the directory once, in an order the filesystem picks. */
    method ListDirectory() returns (listing: seq<string>)
      ensures IsListing(listing, files)
    {
      listing := [];
      var remaining := files.Keys;
      while remaining != {}
        invariant remaining <= files.Keys
        invariant Distinct(listing)
        invariant forall f :: f in listing <==> f in files && f !in remaining
        decreases |remaining|
      {
        var f :| f in remaining;
        listing := listing + [f];
        remaining := remaining - {f};
      }
    }

    /**
     * `findDeletedIcons`: unlinks every managed file whose base name is not a current
     * icon name and reports it. An exception anywhere ends the scan and is swallowed,
     * so an `unlink` that fails leaves its file reported but still present.
     */
    method FindDeletedIcons(names: set<string>) returns (deleted: seq<string>)
      modifies this
      ensures DeletionOutcome(old(files), files, deleted, names, faults)
    {
      deleted := [];
      if faults.readdirFails {
        return;
      }
      var listing := ListDirectory();
      ghost var before := files;
      for i := 0 to |listing|
        invariant Scanned(before, files, listing, i, deleted, names, faults)
      {
        var file := listing[i];
        var ext := ExtName(file);
        if ext == ".svg" || ext == ".tsx" || ext == ".jsx" {
          var baseName := BaseName(file);
          if baseName !in names {
            if file in faults.undeletable {
              ScanStops(before, files, listing, i, deleted, names, faults);
              deleted := deleted + [file];
              return;
            }
            ScanDeletes(before, files, listing, i, deleted, names, faults);
            deleted := deleted + [file];
            files := files - {file};
            continue;
          }
        }
        ScanSkips(before, files, listing, i, deleted, names, faults);
      }
      ScanComplete(before, files, listing, deleted, names, faults);
    }

    /**
     * `processIcons`: creates the directory, saves every icon in every configured
     * format (an icon whose optimisation or save throws is reported once and its
     * remaining formats skipped), then deletes the orphans of the batch's names.
     */
    method ProcessIcons(icons: seq<IconData>) returns (r: Result<SyncResult, string>)
      modifies this
      ensures faults.mkdirFails ==> r == Failure(MkdirError(config.output.directory)) && files == old(files)
      ensures !faults.mkdirFails ==>
                var pass := RunIcons(Environment(), Pass(EmptyResult, old(files)), icons);
                r.Success? && r.value == pass.result.(deleted := r.value.deleted)
                && DeletionOutcome(pass.files, files, r.value.deleted, NameSet(Environment(), icons), faults)
    {
      if faults.mkdirFails {
        return Failure(MkdirError(config.output.directory));
      }
      var env := Environment();
      var result := EmptyResult;
      for i := 0 to |icons|
        invariant RunIcons(env, Pass(result, files), icons[i..]) == RunIcons(env, Pass(EmptyResult, old(files)), icons)
      {
        assert icons[i..][1..] == icons[i + 1..];
        result := ProcessIcon(icons[i], result);
      }
      ghost var pass := Pass(result, files);
      var deleted := FindDeletedIcons(NameSet(env, icons));
      result := result.(deleted := deleted);
      return Success(result);
    }

    /** One iteration of the icon loop of `processIcons`, with its `try` and `catch`. */
    method ProcessIcon(icon: IconData, result: SyncResult) returns (next: SyncResult)
      modifies this
      ensures Pass(next, files) == IconStep(Environment(), icon, Pass(result, old(files)))
    {
      var transformedName := TransformName(config.naming, icon.name);
      var svgContent := icon.svg;
      var failure: Option<string> := None;
      if config.svgo.Some? && config.svgo.value.enabled {
        match optimize(icon.svg) {
          case Failure(e) =>
            failure := Some(e);
          case Success(s) =>
            svgContent := s;
        }
      }
      if failure.Some? {
        return AddError(result, icon.name, failure.value);
      }
      next, failure := SaveFormats(transformedName, svgContent, result);
      if failure.Some? {
        next := AddError(next, icon.name, failure.value);
      }
    }

    /** The dispatch on the format inside the formats loop. */
    method SaveIn(format: Format, name: string, svg: string) returns (r: Result<Saved, string>)
      modifies this
      ensures SavedAs(r, SaveFormat(Environment(), old(files), name, svg, format), old(files), files)
    {
      match format {
        case Svg =>
          r := SaveSvg(name, svg);
        case React =>
          r := SaveReactComponent(name, svg);
      }
    }

    /** The formats loop inside the `try` of `processIcons`: a save that throws ends it. */
    method SaveFormats(name: string, svg: string, result: SyncResult) returns (next: SyncResult, failure: Option<string>)
      modifies this
      ensures Step(Pass(next, files), failure) == RunFormats(Environment(), name, svg, config.output.formats, Pass(result, old(files)))
    {
      ghost var env := Environment();
      ghost var start := Pass(result, files);
      var formats := config.output.formats;
      next := result;
      failure := None;
      var j := 0;
      while j < |formats| && failure.None?
        invariant 0 <= j <= |formats|
        invariant failure.None? ==>
          RunFormats(env, name, svg, formats[j..], Pass(next, files)) == RunFormats(env, name, svg, formats, start)
        invariant failure.Some? ==>
          RunFormats(env, name, svg, formats, start) == Step(Pass(next, files), failure)
        decreases |formats| - j, if failure.None? then 1 else 0
      {
        ghost var here := Pass(next, files);
        var item := SaveIn(formats[j], name, svg);
        assert formats[j..][0] == formats[j] && formats[j..][1..] == formats[j + 1..];
        FormatStep(env, name, svg, formats[j..], here, item, files);
        if item.Failure? {
          failure := Some(item.error);
        } else {
          next := Categorize(next, item.value);
          j := j + 1;
        }
      }
      assert failure.None? ==> formats[j..] == [];
    }
  }

  /**
   * The naming mismatch of a pass, end to end: a React file the icon loop left under
   * the PascalCase name of an icon, when that PascalCase form is not itself an icon
   * name, is an orphan of the same batch and is deleted before the pass returns.
   */
  lemma ReactFileDeletedInSamePass(env: Env, icons: seq<IconData>, i: int, start: map<string, string>,
                                   after: map<string, string>, deleted: seq<string>)
    requires 0 <= i < |icons|
    requires !env.faults.readdirFails && env.faults.undeletable == {}
    requires var name := IconName(env, icons[i]);
             ToPascalCase(name) != [] && ToPascalCase(name) !in NameSet(env, icons)
             && ReactFileName(name, env.config.output.react) in RunIcons(env, Pass(EmptyResult, start), icons).files
    requires DeletionOutcome(RunIcons(env, Pass(EmptyResult, start), icons).files, after, deleted, NameSet(env, icons), env.faults)
    ensures var file := ReactFileName(IconName(env, icons[i]), env.config.output.react);
            file in deleted && file !in after
  {
    var name := IconName(env, icons[i]);
    ReactOutputOrphaned(name, env.config.output.react, NameSet(env, icons));
    OrphansRemoved(RunIcons(env, Pass(EmptyResult, start), icons).files, after, deleted, NameSet(env, icons), env.faults,
                   ReactFileName(name, env.config.output.react));
  }

  /**
   * The state of the scan of `findDeletedIcons` after the first `i` entries of the listing:
   * what it reported are distinct orphans among those entries, each unlinked, and every
   * orphan among those entries was reported.
   */
  ghost predicate Scanned(before: map<string, string>, after: map<string, string>, listing: seq<string>, i: int,
                          deleted: seq<string>, names: set<string>, faults: Faults)
  {
    && 0 <= i <= |listing|
    && IsListing(listing, before)
    && Distinct(deleted)
    && (forall k :: 0 <= k < |deleted| ==> deleted[k] in listing[..i])
    && (forall k :: 0 <= k < |deleted| ==> deleted[k] in before && IsOrphan(deleted[k], names))
    && (forall k :: 0 <= k < |deleted| ==> deleted[k] !in faults.undeletable)
    && after == before - Elements(deleted)
    && (forall k :: 0 <= k < i && IsOrphan(listing[k], names) ==> listing[k] in deleted)
  }

  /** A file that is no orphan is passed over. */
  lemma ScanSkips(before: map<string, string>, after: map<string, string>, listing: seq<string>, i: int,
                  deleted: seq<string>, names: set<string>, faults: Faults)
    requires Scanned(before, after, listing, i, deleted, names, faults)
    requires i < |listing| && !IsOrphan(listing[i], names)
    ensures Scanned(before, after, listing, i + 1, deleted, names, faults)
  {
    forall k | 0 <= k < |deleted| ensures deleted[k] in listing[..i + 1] {
      assert deleted[k] in listing[..i];
    }
  }

  /** The orphan at the scan's position was not reported before, and extends the reported names. */
  lemma ScanAppends(listing: seq<string>, i: int, deleted: seq<string>)
    requires 0 <= i < |listing| && Distinct(listing) && Distinct(deleted)
    requires forall k :: 0 <= k < |deleted| ==> deleted[k] in listing[..i]
    ensures Distinct(deleted + [listing[i]])
    ensures forall k :: 0 <= k < |deleted| + 1 ==> (deleted + [listing[i]])[k] in listing[..i + 1]
  {
    var next := deleted + [listing[i]];
    forall k | 0 <= k < |deleted| ensures deleted[k] != listing[i] {
      assert deleted[k] in listing[..i];
      var m :| 0 <= m < i && listing[..i][m] == deleted[k];
    }
    forall k | 0 <= k < |next| ensures next[k] in listing[..i + 1] {
      if k < |deleted| {
        assert next[k] in listing[..i];
      }
    }
  }

  /** An orphan whose `unlink` throws is reported, and the scan ends there with the file still present. */
  lemma ScanStops(before: map<string, string>, after: map<string, string>, listing: seq<string>, i: int,
                  deleted: seq<string>, names: set<string>, faults: Faults)
    requires !faults.readdirFails
    requires Scanned(before, after, listing, i, deleted, names, faults)
    requires i < |listing| && IsManaged(listing[i]) && BaseName(listing[i]) !in names
    requires listing[i] in faults.undeletable
    ensures DeletionOutcome(before, after, deleted + [listing[i]], names, faults)
  {
    ScanAppends(listing, i, deleted);
    var next := deleted + [listing[i]];
    assert Removed(next, faults) == deleted;
  }

  /** Removing one more file from the directory is removing one more reported name. */
  lemma RemoveOneMore(before: map<string, string>, after: map<string, string>, deleted: seq<string>, file: string)
    requires after == before - Elements(deleted)
    ensures after - {file} == before - Elements(deleted + [file])
  {
    assert Elements(deleted + [file]) == Elements(deleted) + {file};
  }

  /** Every orphan up to and including the scan's position has been reported. */
  lemma OrphansUpTo(listing: seq<string>, i: int, deleted: seq<string>, names: set<string>)
    requires 0 <= i < |listing|
    requires forall k :: 0 <= k < i && IsOrphan(listing[k], names) ==> listing[k] in deleted
    ensures forall k :: 0 <= k < i + 1 && IsOrphan(listing[k], names) ==> listing[k] in deleted + [listing[i]]
  {
    forall k | 0 <= k < i + 1 && IsOrphan(listing[k], names) ensures listing[k] in deleted + [listing[i]] {
      if k < i {
        assert listing[k] in deleted;
      }
    }
  }

  /** An orphan whose `unlink` succeeds is reported and gone, and the scan goes on. */
  lemma ScanDeletes(before: map<string, string>, after: map<string, string>, listing: seq<string>, i: int,
                    deleted: seq<string>, names: set<string>, faults: Faults)
    requires Scanned(before, after, listing, i, deleted, names, faults)
    requires i < |listing| && IsManaged(listing[i]) && BaseName(listing[i]) !in names
    requires listing[i] !in faults.undeletable
    ensures Scanned(before, after - {listing[i]}, listing, i + 1, deleted + [listing[i]], names, faults)
  {
    ScanAppends(listing, i, deleted);
    RemoveOneMore(before, after, deleted, listing[i]);
    OrphansUpTo(listing, i, deleted, names);
  }

  /** A scan that reached the end of the listing reported every orphan. */
  lemma ScanComplete(before: map<string, string>, after: map<string, string>, listing: seq<string>,
                     deleted: seq<string>, names: set<string>, faults: Faults)
    requires !faults.readdirFails
    requires Scanned(before, after, listing, |listing|, deleted, names, faults)
    ensures DeletionOutcome(before, after, deleted, names, faults)
  {
    assert Removed(deleted, faults) == deleted;
    forall f | f in before && IsOrphan(f, names) ensures f in deleted {
      var k :| 0 <= k < |listing| && listing[k] == f;
    }
  }

  /** A sequence without repeats has as many distinct elements as entries. */
  lemma {:induction false} DistinctCardinality(s: seq<string>)
    requires Distinct(s)
    ensures |Elements(s)| == |s|
  {
    if s != [] {
      var front := s[..|s| - 1];
      assert Distinct(front);
      DistinctCardinality(front);
      assert Elements(s) == Elements(front) + {s[|s| - 1]};
      assert s[|s| - 1] !in Elements(front);
    }
  }

  /** Without filesystem faults. */
  const NoFaults: Faults := Faults(false, false, {}, {}, {})

  /** When the directory holds a single orphan and no unlink fails, exactly that orphan goes. */
  lemma SingleOrphanDeleted(before: map<string, string>, after: map<string, string>, deleted: seq<string>,
                            names: set<string>, faults: Faults, orphan: string)
    requires !faults.readdirFails && faults.undeletable == {}
    requires DeletionOutcome(before, after, deleted, names, faults)
    requires orphan in before && IsOrphan(orphan, names)
    requires forall f :: f in before && f != orphan ==> !IsOrphan(f, names)
    ensures deleted == [orphan] && after == before - {orphan}
  {
    OrphansRemoved(before, after, deleted, names, faults, orphan);
    assert Removed(deleted, faults) == deleted;
    assert Elements(deleted) == {orphan};
    DistinctCardinality(deleted);
    assert deleted == [deleted[0]];
  }

  /** Adding one entry and removing the other leaves the one added. */
  lemma ReplacedEntry(gone: string, previous: string, kept: string, content: string)
    requires gone != kept
    ensures map[gone := previous][kept := content] - {gone} == map[kept := content]
  {
  }

  /** With default naming, a safe name is the name its files are saved under. */
  lemma SafeNameKept(env: Env, icon: IconData)
    requires env.config.naming.None? && IsSafeName(icon.name)
    ensures IconName(env, icon) == icon.name
  {
    SanitizeKeepsSafeName(icon.name);
  }

  /**
   * One icon saved as SVG only, under its own name (see `SafeNameKept`), into a
   * directory without its file: the file is written and reported added, nothing else.
   */
  lemma NewIconPass(env: Env, icon: IconData, before: map<string, string>)
    requires env.faults == NoFaults
    requires env.config.output.formats == [Svg] && env.config.svgo.None?
    requires IconName(env, icon) == icon.name
    requires SvgFileName(icon.name) !in before
    ensures var pass := RunIcons(env, Pass(EmptyResult, before), [icon]);
            pass.result == EmptyResult.(added := [JoinPath(env.config.output.directory, SvgFileName(icon.name))])
            && pass.files == before[SvgFileName(icon.name) := icon.svg]
  {
    assert [icon][1..] == [];
    RunFormatsHead(env, icon.name, icon.svg, [Svg], Pass(EmptyResult, before));
    assert [Svg][1..] == [];
  }

  /**
   * The deletion run after `NewIconPass` over a directory that held only the SVG of
   * another name: with the batch's one name, exactly the old SVG is reported and removed.
   */
  lemma OldSvgDeleted(name: string, oldName: string, previous: string, svg: string,
                      after: map<string, string>, deleted: seq<string>)
    requires name != [] && oldName != [] && oldName != name
    requires DeletionOutcome(map[SvgFileName(oldName) := previous][SvgFileName(name) := svg],
                             after, deleted, {name}, NoFaults)
    ensures deleted == [SvgFileName(oldName)] && after == map[SvgFileName(name) := svg]
  {
    ManagedFileName(oldName, ".svg");
    ManagedFileName(name, ".svg");
    var files := map[SvgFileName(oldName) := previous][SvgFileName(name) := svg];
    SingleOrphanDeleted(files, after, deleted, {name}, NoFaults, SvgFileName(oldName));
    ReplacedEntry(SvgFileName(oldName), previous, SvgFileName(name), svg);
  }

  /**
   * An empty batch is not short-circuited: its name set is empty, so every file with a
   * managed extension is an orphan, and without `unlink` failures all of them go.
   */
  lemma EmptyBatchRemovesManagedFiles(env: Env, files: map<string, string>,
                                      after: map<string, string>, deleted: seq<string>)
    requires !env.faults.readdirFails && env.faults.undeletable == {}
    requires DeletionOutcome(RunIcons(env, Pass(EmptyResult, files), []).files, after, deleted, NameSet(env, []), env.faults)
    ensures forall f :: f in after <==> f in files && !IsManaged(f)
    ensures forall f :: f in files && IsManaged(f) ==> f in deleted
  {
    assert NameSet(env, []) == {};
    RemainingFiles(files, after, deleted, NameSet(env, []), env.faults);
    forall f | f in files && IsManaged(f) ensures f in deleted {
      OrphansRemoved(files, after, deleted, NameSet(env, []), env.faults, f);
    }
  }

  /**
   * A React file that the deletion run of a pass removed as an orphan is reported as
   * added again when the next pass saves it: for such names the report of a repeated
   * sync never settles to all-unchanged.
   */
  lemma ReactFileAddedAgain(env: Env, icons: seq<IconData>, i: int, start: map<string, string>,
                            after: map<string, string>, deleted: seq<string>, svg: string)
    requires 0 <= i < |icons|
    requires !env.faults.readdirFails && env.faults.undeletable == {}
    requires var name := IconName(env, icons[i]);
             ToPascalCase(name) != [] && ToPascalCase(name) !in NameSet(env, icons)
             && ReactFileName(name, env.config.output.react) in RunIcons(env, Pass(EmptyResult, start), icons).files
    requires DeletionOutcome(RunIcons(env, Pass(EmptyResult, start), icons).files, after, deleted, NameSet(env, icons), env.faults)
    requires SaveFormat(env, after, IconName(env, icons[i]), svg, React).Success?
    ensures SaveFormat(env, after, IconName(env, icons[i]), svg, React).value.saved.status == Added
  {
    ReactFileDeletedInSamePass(env, icons, i, start, after, deleted);
  }

  /**
   * A one-icon batch whose name, kept as it is, holds a `-`, `_` or white space: the
   * PascalCase name of its React file is another name, so the pass that wrote the file
   * deletes it.
   */
  lemma SeparatedNameLosesReactFile(env: Env, icon: IconData, k: int, start: map<string, string>,
                                    after: map<string, string>, deleted: seq<string>)
    requires 0 <= k < |icon.name| && IsSeparator(icon.name[k])
    requires IconName(env, icon) == icon.name && ToPascalCase(icon.name) != []
    requires !env.faults.readdirFails && env.faults.undeletable == {}
    requires ReactFileName(icon.name, env.config.output.react) in RunIcons(env, Pass(EmptyResult, start), [icon]).files
    requires DeletionOutcome(RunIcons(env, Pass(EmptyResult, start), [icon]).files, after, deleted, NameSet(env, [icon]), env.faults)
    ensures ReactFileName(icon.name, env.config.output.react) in deleted
    ensures ReactFileName(icon.name, env.config.output.react) !in after
  {
    NameSetOfOne(env, icon);
    SeparatorChangesPascal(icon.name, k);
    assert [icon][0] == icon;
    ReactFileDeletedInSamePass(env, [icon], 0, start, after, deleted);
  }

  /**
   * The icon `arrow-left`, without a naming section: its React file, `ArrowLeft` with the
   * configured extension (see `HyphenatedPascalExample`), is gone when the pass returns.
   */
  lemma ArrowLeftLosesReactFile(env: Env, icon: IconData, start: map<string, string>,
                                after: map<string, string>, deleted: seq<string>)
    requires env.config.naming.None? && icon.name == "arrow-left"
    requires !env.faults.readdirFails && env.faults.undeletable == {}
    requires ReactFileName(icon.name, env.config.output.react) in RunIcons(env, Pass(EmptyResult, start), [icon]).files
    requires DeletionOutcome(RunIcons(env, Pass(EmptyResult, start), [icon]).files, after, deleted, NameSet(env, [icon]), env.faults)
    ensures ReactFileName(icon.name, env.config.output.react) in deleted
    ensures ReactFileName(icon.name, env.config.output.react) !in after
  {
    ArrowLeftFacts();
    SafeNameKept(env, icon);
    SeparatedNameLosesReactFile(env, icon, 5, start, after, deleted);
  }
}
