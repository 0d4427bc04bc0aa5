/**
 * What one pass of the icon processor does to the output directory and to its
 * report, as functions of the directory's contents: the write decision of `saveSvg`
 * and `saveReactComponent`, `categorizeResult`, the per-icon step of `processIcons`
 * with its error handling, the batch fold, and the orphan rule of `findDeletedIcons`.
 *
 * The output directory is a map from file name to contents. Filesystem failures are
 * fixed by a `Faults` record: which calls fail, and for which file names.
 */
module Reconcile {
  import opened Wrappers
  import opened Text
  import opened Types
  import opened Naming
  import opened ReactComponent

  /** The filesystem calls that fail: `mkdir`, `readdir`, and reads, writes and unlinks of given files. */
  datatype Faults = Faults(
    mkdirFails: bool,
    readdirFails: bool,
    unreadable: set<string>,
    unwritable: set<string>,
    undeletable: set<string>)

  /** The processor's configuration, the SVG optimiser it calls, and the filesystem's failures. */
  datatype Env = Env(config: Config, optimize: string -> Result<string, string>, faults: Faults)

  datatype Status = Added | Updated | Unchanged

  /** What `saveSvg` and `saveReactComponent` return. */
  datatype Saved = Saved(path: string, status: Status)

  /** A successful save: its report and the directory afterwards. */
  datatype Save = Save(saved: Saved, files: map<string, string>)

  /** The state of a pass: the report so far and the directory. */
  datatype Pass = Pass(result: SyncResult, files: map<string, string>)

  const EmptyResult: SyncResult := SyncResult([], [], [], [], [])

  /** `path.join(directory, name)` for a directory and a plain file name. */
  function JoinPath(directory: string, name: string): string {
    directory + "/" + name
  }

  /** The message of a failed write; the operating system's wording is not modelled. */
  function WriteError(path: string): string {
    "cannot write " + path
  }

  /** The message of a failed `mkdir` of the output directory. */
  function MkdirError(directory: string): string {
    "cannot create directory " + directory
  }

  /** `fs.readFile`: the contents, or `None` when the file is missing or cannot be read. */
  function ReadFile(faults: Faults, files: map<string, string>, name: string): Option<string> {
    if name in files && name !in faults.unreadable then Some(files[name]) else None
  }

  /** The status a save reports: a read failure counts as a missing file. */
  function StatusOf(existing: Option<string>, content: string): (s: Status)
    ensures s == Added <==> existing.None?
    ensures s == Unchanged <==> existing == Some(content)
    ensures s == Updated <==> existing.Some? && existing.value != content
  {
    match existing
    case None => Added
    case Some(current) => if current == content then Unchanged else Updated
  }

  /**
   * The shared body of `saveSvg` and `saveReactComponent`: read the file, decide the
   * status, write unless unchanged. A write that fails is the save's error.
   */
  function SaveFile(env: Env, files: map<string, string>, fileName: string, content: string): (r: Result<Save, string>)
    ensures var existing := ReadFile(env.faults, files, fileName);
            r.Failure? <==> fileName in env.faults.unwritable && existing != Some(content)
    ensures r.Failure? ==> r.error == WriteError(JoinPath(env.config.output.directory, fileName))
    ensures r.Success? ==> r.value.saved.path == JoinPath(env.config.output.directory, fileName)
    ensures r.Success? ==> r.value.saved.status == StatusOf(ReadFile(env.faults, files, fileName), content)
    ensures r.Success? ==> r.value.files == files[fileName := content]
    ensures r.Success? && r.value.saved.status == Unchanged ==> r.value.files == files
  {
    var path := JoinPath(env.config.output.directory, fileName);
    var status := StatusOf(ReadFile(env.faults, files, fileName), content);
    if status == Unchanged then
      Success(Save(Saved(path, status), files))
    else if fileName in env.faults.unwritable then
      Failure(WriteError(path))
    else
      Success(Save(Saved(path, status), files[fileName := content]))
  }

  /** `${name}.svg`. */
  function SvgFileName(name: string): string {
    name + ".svg"
  }

  /** `.tsx` only when the React section exists and sets `typescript`; `.jsx` otherwise. */
  function ReactExtension(react: Option<ReactConfig>): string {
    if react.Some? && react.value.typescript then ".tsx" else ".jsx"
  }

  /** `${toPascalCase(name)}${ext}`: the React file is named after the PascalCase form, without the prefix. */
  function ReactFileName(name: string, react: Option<ReactConfig>): string {
    ToPascalCase(name) + ReactExtension(react)
  }

  /**
   * Without a React section the component file is saved as `.jsx` while its source
   * still carries the TypeScript props annotation: the two defaults disagree.
   */
  lemma DefaultReactFileIsTyped(name: string, svg: string)
    requires MatchSvg(svg).Some?
    ensures ReactExtension(None) == ".jsx"
    ensures var r := SvgToReactComponent(name, svg, None);
            r.Success? && StartsWith(r.value, ComponentSignature(ComponentName(name, None), None))
            && PropsAnnotation(None) == PropsType
  {
  }

  /** The file a format is saved to. */
  function OutputFileName(name: string, format: Format, react: Option<ReactConfig>): string {
    match format
    case Svg => SvgFileName(name)
    case React => ReactFileName(name, react)
  }

  /**
   * One format of one icon: the SVG file, or the React component built from the SVG.
   * Only the format's own file can change; the conversion fails before anything is read.
   */
  function SaveFormat(env: Env, files: map<string, string>, name: string, svg: string, format: Format): (r: Result<Save, string>)
    ensures var f := OutputFileName(name, format, env.config.output.react);
            r.Success? ==> f in r.value.files && r.value.files == files[f := r.value.files[f]]
    ensures var f := OutputFileName(name, format, env.config.output.react);
            r.Success? ==> r.value.saved.path == JoinPath(env.config.output.directory, f)
    ensures format == Svg ==> r == SaveFile(env, files, SvgFileName(name), svg)
    ensures format == React && MatchSvg(svg).None? ==> r == Failure("Invalid SVG content")
  {
    match format
    case Svg => SaveFile(env, files, SvgFileName(name), svg)
    case React =>
      match SvgToReactComponent(name, svg, env.config.output.react)
      case Failure(e) => Failure(e)
      case Success(code) => SaveFile(env, files, ReactFileName(name, env.config.output.react), code)
  }

  /** The React save in two cases: the conversion's error, or the converted source saved to the PascalCase file. */
  lemma SaveFormatReact(env: Env, files: map<string, string>, name: string, svg: string)
    ensures var code := SvgToReactComponent(name, svg, env.config.output.react);
            SaveFormat(env, files, name, svg, React)
            == if code.Failure? then Failure(code.error)
               else SaveFile(env, files, ReactFileName(name, env.config.output.react), code.value)
  {
  }

  /** `categorizeResult`: the path goes to exactly the list its status names. */
  function Categorize(result: SyncResult, saved: Saved): (r: SyncResult)
    ensures r.deleted == result.deleted && r.errors == result.errors
    ensures r.added == result.added + (if saved.status == Added then [saved.path] else [])
    ensures r.updated == result.updated + (if saved.status == Updated then [saved.path] else [])
    ensures r.unchangedFiles == result.unchangedFiles + (if saved.status == Unchanged then [saved.path] else [])
    ensures |r.added| + |r.updated| + |r.unchangedFiles| == |result.added| + |result.updated| + |result.unchangedFiles| + 1
  {
    match saved.status
    case Added => result.(added := result.added + [saved.path])
    case Updated => result.(updated := result.updated + [saved.path])
    case Unchanged => result.(unchangedFiles := result.unchangedFiles + [saved.path])
  }

  /** The `catch` of the per-icon `try`: one error entry, named after `icon.name`, the name before `transformName`. */
  function AddError(result: SyncResult, file: string, error: string): (r: SyncResult)
    ensures r.errors == result.errors + [SyncError(file, error)]
    ensures r.added == result.added && r.updated == result.updated
    ensures r.unchangedFiles == result.unchangedFiles && r.deleted == result.deleted
  {
    result.(errors := result.errors + [SyncError(file, error)])
  }

  /** The SVG after the optional SVGO pass; the optimiser may reject its input. */
  function Optimized(env: Env, svg: string): Result<string, string> {
    if env.config.svgo.Some? && env.config.svgo.value.enabled then env.optimize(svg) else Success(svg)
  }

  /** The formats loop of one icon: where a format fails, the remaining ones are skipped. */
  datatype Step = Step(pass: Pass, failure: Option<string>)

  function RunFormats(env: Env, name: string, svg: string, formats: seq<Format>, pass: Pass): Step
    decreases |formats|
  {
    if formats == [] then Step(pass, None)
    else
      match SaveFormat(env, pass.files, name, svg, formats[0])
      case Failure(e) => Step(pass, Some(e))
      case Success(s) => RunFormats(env, name, svg, formats[1..], Pass(Categorize(pass.result, s.saved), s.files))
  }

  /** The first format of the loop either stops it or hands its save on to the rest. */
  lemma RunFormatsHead(env: Env, name: string, svg: string, formats: seq<Format>, pass: Pass)
    requires formats != []
    ensures var s := SaveFormat(env, pass.files, name, svg, formats[0]);
            RunFormats(env, name, svg, formats, pass)
            == if s.Failure? then Step(pass, Some(s.error))
               else RunFormats(env, name, svg, formats[1..], Pass(Categorize(pass.result, s.value.saved), s.value.files))
  {
  }

  /** The name an icon's files are saved under. */
  function IconName(env: Env, icon: IconData): string {
    TransformName(env.config.naming, icon.name)
  }

  /** One iteration of the icon loop of `processIcons`, its `try` and its `catch`. */
  function IconStep(env: Env, icon: IconData, pass: Pass): Pass {
    match Optimized(env, icon.svg)
    case Failure(e) => Pass(AddError(pass.result, icon.name, e), pass.files)
    case Success(svg) =>
      var step := RunFormats(env, IconName(env, icon), svg, env.config.output.formats, pass);
      if step.failure.Some? then
        Pass(AddError(step.pass.result, icon.name, step.failure.value), step.pass.files)
      else
        step.pass
  }

  /** The icon loop of `processIcons`, from a given state. */
  function RunIcons(env: Env, pass: Pass, icons: seq<IconData>): Pass
    decreases |icons|
  {
    if icons == [] then pass else RunIcons(env, IconStep(env, icons[0], pass), icons[1..])
  }

  /** `currentIconNames`: the transformed names of every icon of the batch, failed or not. */
  function NameSet(env: Env, icons: seq<IconData>): (names: set<string>)
    ensures forall i :: 0 <= i < |icons| ==> IconName(env, icons[i]) in names
    ensures forall n :: n in names ==> exists i :: 0 <= i < |icons| && n == IconName(env, icons[i])
  {
    set i | 0 <= i < |icons| :: IconName(env, icons[i])
  }

  /** A batch of one icon has that icon's name alone. */
  lemma NameSetOfOne(env: Env, icon: IconData)
    ensures NameSet(env, [icon]) == {IconName(env, icon)}
  {
    var names := NameSet(env, [icon]);
    forall x | x in names ensures x == IconName(env, icon) {
      var i :| 0 <= i < 1 && x == IconName(env, [icon][i]);
      assert [icon][i] == icon;
    }
    assert [icon][0] == icon;
  }

  // ---------------------------------------------------------------------------
  // Orphans

  /** The index of the last `.` in `s`, if any. */
  function LastDot(s: string): (r: Option<nat>)
    ensures r.Some? ==> r.value < |s| && s[r.value] == '.' && forall j :: r.value < j < |s| ==> s[j] != '.'
    ensures r.None? ==> forall j :: 0 <= j < |s| ==> s[j] != '.'
  {
    if s == [] then None
    else if s[|s| - 1] == '.' then Some(|s| - 1)
    else LastDot(s[..|s| - 1])
  }

  /**
   * `path.extname` of a file name: from the last `.` on, except that a name without a
   * dot, a name whose only leading dot is its last one (`.svg`), and `..` have none.
   */
  function ExtName(file: string): (r: string)
    ensures r == [] || (r[0] == '.' && EndsWith(file, r) && |r| < |file|)
  {
    match LastDot(file)
    case None => ""
    case Some(d) =>
      if d == 0 || file == ".." then ""
      else
        assert file[d..] == file[|file| - (|file| - d)..];
        file[d..]
  }

  /** `path.basename(file, ext)`: the name without its extension. */
  function BaseName(file: string): (r: string)
    ensures file == r + ExtName(file)
  {
    var e := ExtName(file);
    assert file == file[..|file| - |e|] + file[|file| - |e|..];
    file[..|file| - |e|]
  }

  /** The extensions `findDeletedIcons` manages. */
  predicate IsManaged(file: string) {
    var e := ExtName(file);
    e == ".svg" || e == ".tsx" || e == ".jsx"
  }

  /** A managed file whose base name is no icon of the batch. */
  predicate IsOrphan(file: string, names: set<string>) {
    IsManaged(file) && BaseName(file) !in names
  }

  /** A listing of the directory: every file name once, in an order the filesystem chooses. */
  ghost predicate IsListing(listing: seq<string>, files: map<string, string>) {
    Distinct(listing) && (forall f :: f in listing <==> f in files)
  }

  /** The files a deletion run removed: all it reported, except a last one whose `unlink` failed. */
  function Removed(deleted: seq<string>, faults: Faults): seq<string> {
    if deleted != [] && deleted[|deleted| - 1] in faults.undeletable then deleted[..|deleted| - 1] else deleted
  }

  /**
   * `findDeletedIcons`: a failed `readdir` deletes nothing and reports nothing.
   * Otherwise every reported name is a distinct orphan of the directory; all but a last
   * one whose `unlink` threw are gone and nothing else changed; and when no `unlink`
   * threw, every orphan was reported.
   */
  ghost predicate DeletionOutcome(
    before: map<string, string>, after: map<string, string>, deleted: seq<string>,
    names: set<string>, faults: Faults)
  {
    if faults.readdirFails then
      deleted == [] && after == before
    else
      var removed := Removed(deleted, faults);
      && Distinct(deleted)
      && (forall i :: 0 <= i < |deleted| ==> deleted[i] in before && IsOrphan(deleted[i], names))
      && (forall i :: 0 <= i < |removed| ==> deleted[i] !in faults.undeletable)
      && after == before - Elements(removed)
      && (removed == deleted ==> forall f :: f in before && IsOrphan(f, names) ==> f in deleted)
  }

  // ---------------------------------------------------------------------------
  // Properties of a pass

  /** Saving the same content a second time reports it unchanged and writes nothing. */
  lemma SaveAgainIsUnchanged(env: Env, files: map<string, string>, fileName: string, content: string)
    requires SaveFile(env, files, fileName, content).Success?
    requires fileName !in env.faults.unreadable
    ensures var again := SaveFile(env, SaveFile(env, files, fileName, content).value.files, fileName, content);
            again.Success? && again.value.saved.status == Unchanged
            && again.value.files == SaveFile(env, files, fileName, content).value.files
  {
  }

  /** The report `r` continues `r0`: its lists extend those of `r0`, and `deleted` is untouched. */
  predicate Extends(r: SyncResult, r0: SyncResult) {
    && r0.added <= r.added && r0.updated <= r.updated && r0.unchangedFiles <= r.unchangedFiles
    && r0.errors <= r.errors && r.deleted == r0.deleted
  }

  lemma ExtendsTransitive(a: SyncResult, b: SyncResult, c: SyncResult)
    requires Extends(b, a) && Extends(c, b)
    ensures Extends(c, a)
  {
  }

  /** `f` and `g` hold the same files outside `changed`. */
  ghost predicate SameOutside(f: map<string, string>, g: map<string, string>, changed: set<string>) {
    forall k :: k !in changed ==> (k in f <==> k in g) && (k in f && k in g ==> f[k] == g[k])
  }

  /** The files the formats of the configuration save for an icon named `name`. */
  function FormatFiles(env: Env, name: string, formats: seq<Format>): (fs: set<string>)
    ensures forall j :: 0 <= j < |formats| ==> OutputFileName(name, formats[j], env.config.output.react) in fs
  {
    set j | 0 <= j < |formats| :: OutputFileName(name, formats[j], env.config.output.react)
  }

  /** The formats loop adds no error of its own, extends the report, and writes only its files. */
  lemma {:induction false} RunFormatsEffect(env: Env, name: string, svg: string, formats: seq<Format>, pass: Pass)
    ensures var st := RunFormats(env, name, svg, formats, pass);
            Extends(st.pass.result, pass.result) && st.pass.result.errors == pass.result.errors
    ensures SameOutside(RunFormats(env, name, svg, formats, pass).pass.files, pass.files, FormatFiles(env, name, formats))
    decreases |formats|
  {
    if formats != [] {
      var r := SaveFormat(env, pass.files, name, svg, formats[0]);
      if r.Success? {
        var next := Pass(Categorize(pass.result, r.value.saved), r.value.files);
        RunFormatsEffect(env, name, svg, formats[1..], next);
        assert FormatFiles(env, name, formats[1..]) <= FormatFiles(env, name, formats) by {
          forall j | 0 <= j < |formats[1..]| ensures formats[1..][j] == formats[j + 1] { }
        }
      }
    }
  }

  /**
   * One icon: its outcome extends the report, adds at most one error, named after
   * `icon.name` (the name before `transformName`), leaves `deleted` alone and changes no file but its outputs.
   */
  lemma IconStepEffect(env: Env, icon: IconData, pass: Pass)
    ensures var next := IconStep(env, icon, pass);
            && Extends(next.result, pass.result)
            && (|next.result.errors| == |pass.result.errors|
                || (|next.result.errors| == |pass.result.errors| + 1
                    && next.result.errors[|pass.result.errors|].file == icon.name))
    ensures SameOutside(IconStep(env, icon, pass).files, pass.files,
                        FormatFiles(env, IconName(env, icon), env.config.output.formats))
  {
    var o := Optimized(env, icon.svg);
    if o.Success? {
      RunFormatsEffect(env, IconName(env, icon), o.value, env.config.output.formats, pass);
    }
  }

  /** An icon fails, with exactly one error entry, when its SVG is rejected or one of its saves fails. */
  lemma IconFailsOnce(env: Env, icon: IconData, pass: Pass)
    requires Optimized(env, icon.svg).Failure?
             || RunFormats(env, IconName(env, icon), Optimized(env, icon.svg).value, env.config.output.formats, pass).failure.Some?
    ensures |IconStep(env, icon, pass).result.errors| == |pass.result.errors| + 1
    ensures IconStep(env, icon, pass).result.errors[|pass.result.errors|].file == icon.name
  {
    var o := Optimized(env, icon.svg);
    if o.Success? {
      RunFormatsEffect(env, IconName(env, icon), o.value, env.config.output.formats, pass);
    }
  }

  /** Running two batches in a row is running their concatenation. */
  lemma {:induction false} RunIconsAppend(env: Env, pass: Pass, a: seq<IconData>, b: seq<IconData>)
    ensures RunIcons(env, pass, a + b) == RunIcons(env, RunIcons(env, pass, a), b)
    decreases |a|
  {
    if a == [] {
      assert a + b == b;
    } else {
      assert (a + b)[1..] == a[1..] + b;
      RunIconsAppend(env, IconStep(env, a[0], pass), a[1..], b);
    }
  }

  /** A failing icon does not stop the loop: the icons after it are processed as usual. */
  lemma LaterIconsStillRun(env: Env, pass: Pass, before: seq<IconData>, icon: IconData, after: seq<IconData>)
    ensures RunIcons(env, pass, before + [icon] + after)
            == RunIcons(env, IconStep(env, icon, RunIcons(env, pass, before)), after)
  {
    RunIconsAppend(env, pass, before + [icon], after);
    RunIconsAppend(env, pass, before, [icon]);
    assert RunIcons(env, RunIcons(env, pass, before), [icon]) == IconStep(env, icon, RunIcons(env, pass, before));
  }

  /** The files the configured formats save for the icons of a batch. */
  function BatchFiles(env: Env, icons: seq<IconData>): set<string>
    decreases |icons|
  {
    if icons == [] then {}
    else FormatFiles(env, IconName(env, icons[0]), env.config.output.formats) + BatchFiles(env, icons[1..])
  }

  /** The icon loop extends the report, adds at most one error per icon, and changes no file but the batch's outputs. */
  lemma {:induction false} RunIconsEffect(env: Env, pass: Pass, icons: seq<IconData>)
    ensures var out := RunIcons(env, pass, icons);
            && Extends(out.result, pass.result)
            && |out.result.errors| <= |pass.result.errors| + |icons|
            && SameOutside(out.files, pass.files, BatchFiles(env, icons))
    decreases |icons|
  {
    if icons != [] {
      var next := IconStep(env, icons[0], pass);
      IconStepEffect(env, icons[0], pass);
      RunIconsEffect(env, next, icons[1..]);
      ExtendsTransitive(pass.result, next.result, RunIcons(env, pass, icons).result);
    }
  }

  /** The errors one icon adds extend the report's errors and are named after that icon. */
  lemma IconStepErrors(env: Env, icon: IconData, pass: Pass)
    ensures var errs := IconStep(env, icon, pass).result.errors;
            pass.result.errors <= errs
            && forall e :: |pass.result.errors| <= e < |errs| ==> errs[e].file == icon.name
  {
    var errs := IconStep(env, icon, pass).result.errors;
    IconStepEffect(env, icon, pass);
    forall e | |pass.result.errors| <= e < |errs| ensures errs[e].file == icon.name {
      assert e == |pass.result.errors|;
    }
  }

  /** Every error the icon loop adds names an icon of the batch. */
  lemma {:induction false} RunIconsErrorsNameIcons(env: Env, pass: Pass, icons: seq<IconData>)
    ensures pass.result.errors <= RunIcons(env, pass, icons).result.errors
    ensures var errs := RunIcons(env, pass, icons).result.errors;
            forall e :: |pass.result.errors| <= e < |errs| ==>
              exists i :: 0 <= i < |icons| && errs[e].file == icons[i].name
    decreases |icons|
  {
    if icons != [] {
      var next := IconStep(env, icons[0], pass);
      IconStepErrors(env, icons[0], pass);
      RunIconsErrorsNameIcons(env, next, icons[1..]);
      var errs := RunIcons(env, next, icons[1..]).result.errors;
      assert RunIcons(env, pass, icons).result.errors == errs;
      forall e | |pass.result.errors| <= e < |errs|
        ensures exists i :: 0 <= i < |icons| && errs[e].file == icons[i].name
      {
        if e < |next.result.errors| {
          assert errs[e] == next.result.errors[e];
          assert errs[e].file == icons[0].name;
        } else {
          var i :| 0 <= i < |icons[1..]| && errs[e].file == icons[1..][i].name;
          assert errs[e].file == icons[i + 1].name;
        }
      }
    }
  }

  // ---------------------------------------------------------------------------
  // Orphan properties

  /** A managed extension after a non-empty base name is recognised, and the base name recovered. */
  lemma ManagedFileName(base: string, ext: string)
    requires base != []
    requires ext == ".svg" || ext == ".tsx" || ext == ".jsx"
    ensures ExtName(base + ext) == ext && BaseName(base + ext) == base && IsManaged(base + ext)
  {
    var file := base + ext;
    assert file[|base|] == '.';
    forall j | |base| < j < |file| ensures file[j] != '.' {
      assert file[j] == ext[j - |base|];
    }
    var d := LastDot(file);
    assert d == Some(|base|);
    assert file[|base|..] == ext;
    assert file != "..";
  }

  /** The SVG file of an icon of the batch is never an orphan. */
  lemma SvgOutputKept(name: string, names: set<string>)
    requires name != [] && name in names
    ensures !IsOrphan(SvgFileName(name), names)
  {
    ManagedFileName(name, ".svg");
  }

  /**
   * The React file is an orphan whenever the PascalCase form of the icon's name is not
   * itself a name of the batch: it is named after `toPascalCase`, the batch after `transformName`.
   */
  lemma ReactOutputOrphaned(name: string, react: Option<ReactConfig>, names: set<string>)
    requires ToPascalCase(name) != [] && ToPascalCase(name) !in names
    ensures IsOrphan(ReactFileName(name, react), names)
  {
    ManagedFileName(ToPascalCase(name), ReactExtension(react));
  }

  /**
   * The React file is an orphan exactly when the PascalCase form of the name is non-empty
   * and no name of the batch: an all-separator name leaves the bare extension, whose
   * `extname` is empty, so that file is never touched.
   */
  lemma ReactOrphanIff(name: string, react: Option<ReactConfig>, names: set<string>)
    ensures IsOrphan(ReactFileName(name, react), names)
            <==> ToPascalCase(name) != [] && ToPascalCase(name) !in names
  {
    var ext := ReactExtension(react);
    if ToPascalCase(name) == [] {
      assert ReactFileName(name, react) == ext;
      assert LastDot(ext) == Some(0) by {
        assert ext[0] == '.' && forall j :: 0 < j < |ext| ==> ext[j] != '.';
      }
      assert ExtName(ext) == "";
    } else {
      ManagedFileName(ToPascalCase(name), ext);
    }
  }

  /** A name that is already in PascalCase keeps its React file. */
  lemma PascalNameKeepsReactFile(name: string, react: Option<ReactConfig>, names: set<string>)
    requires name != [] && name in names && !IsAsciiLower(name[0])
    requires forall i :: 0 <= i < |name| ==> !IsSeparator(name[i])
    ensures !IsOrphan(ReactFileName(name, react), names)
  {
    DroppingSeparatorsKeepsWords(name);
    assert ToPascalCase(name) == name;
    ManagedFileName(name, ReactExtension(react));
  }

  /** Without `unlink` failures, a completed deletion run leaves no orphan and reports each removed one. */
  lemma OrphansRemoved(before: map<string, string>, after: map<string, string>, deleted: seq<string>,
                       names: set<string>, faults: Faults, file: string)
    requires DeletionOutcome(before, after, deleted, names, faults)
    requires !faults.readdirFails && faults.undeletable == {}
    requires file in before && IsOrphan(file, names)
    ensures file !in after && file in deleted
  {
    assert Removed(deleted, faults) == deleted;
    var i :| 0 <= i < |deleted| && deleted[i] == file;
  }

  /** Without `unlink` failures, the files that remain are exactly the non-orphans. */
  lemma RemainingFiles(before: map<string, string>, after: map<string, string>, deleted: seq<string>,
                       names: set<string>, faults: Faults)
    requires DeletionOutcome(before, after, deleted, names, faults)
    requires !faults.readdirFails && faults.undeletable == {}
    ensures forall f :: f in after <==> f in before && !IsOrphan(f, names)
    ensures forall f :: f in after ==> after[f] == before[f]
  {
    assert Removed(deleted, faults) == deleted;
    forall f | f in before && IsOrphan(f, names) ensures f !in after {
      OrphansRemoved(before, after, deleted, names, faults, f);
    }
  }

  // ---------------------------------------------------------------------------
  // A second pass over the same icons

  /** What a format saves for an icon, or `None` when the React conversion rejects the SVG. */
  function FormatContent(env: Env, name: string, svg: string, format: Format): Option<string> {
    match format
    case Svg => Some(svg)
    case React =>
      match SvgToReactComponent(name, svg, env.config.output.react)
      case Failure(_) => None
      case Success(code) => Some(code)
  }

  /** The files the formats loop writes when no write fails, later formats overriding earlier ones. */
  function FormatWrites(env: Env, name: string, svg: string, formats: seq<Format>): map<string, string>
    decreases |formats|
  {
    if formats == [] then map[]
    else
      match FormatContent(env, name, svg, formats[0])
      case None => map[]
      case Some(c) =>
        map[OutputFileName(name, formats[0], env.config.output.react) := c] + FormatWrites(env, name, svg, formats[1..])
  }

  function IconWrites(env: Env, icon: IconData): map<string, string> {
    match Optimized(env, icon.svg)
    case Failure(_) => map[]
    case Success(svg) => FormatWrites(env, IconName(env, icon), svg, env.config.output.formats)
  }

  /** The files a batch writes, independent of what the directory held before. */
  function BatchWrites(env: Env, icons: seq<IconData>): map<string, string>
    decreases |icons|
  {
    if icons == [] then map[] else IconWrites(env, icons[0]) + BatchWrites(env, icons[1..])
  }

  lemma MergeAssociative(a: map<string, string>, b: map<string, string>, c: map<string, string>)
    ensures (a + b) + c == a + (b + c)
  {
  }

  lemma MergeIdempotent(a: map<string, string>, b: map<string, string>)
    ensures (a + b) + b == a + b
  {
  }

  lemma MergeEmpty(a: map<string, string>)
    ensures a + map[] == a
  {
  }

  lemma UpdateIsMerge(a: map<string, string>, k: string, v: string)
    ensures a[k := v] == a + map[k := v]
  {
  }

  /** With every file writable, a format's save succeeds exactly when its content can be built. */
  lemma SaveFormatWritable(env: Env, files: map<string, string>, name: string, svg: string, format: Format)
    requires env.faults.unwritable == {}
    ensures var r := SaveFormat(env, files, name, svg, format);
            var c := FormatContent(env, name, svg, format);
            (r.Success? <==> c.Some?)
            && (r.Success? ==> r.value.files == files[OutputFileName(name, format, env.config.output.react) := c.value])
  {
  }

  lemma {:induction false} RunFormatsFiles(env: Env, name: string, svg: string, formats: seq<Format>, pass: Pass)
    requires env.faults.unwritable == {}
    ensures RunFormats(env, name, svg, formats, pass).pass.files == pass.files + FormatWrites(env, name, svg, formats)
    decreases |formats|
  {
    if formats == [] {
      MergeEmpty(pass.files);
    } else {
      SaveFormatWritable(env, pass.files, name, svg, formats[0]);
      var r := SaveFormat(env, pass.files, name, svg, formats[0]);
      if r.Success? {
        var f := OutputFileName(name, formats[0], env.config.output.react);
        var c := FormatContent(env, name, svg, formats[0]).value;
        var next := Pass(Categorize(pass.result, r.value.saved), r.value.files);
        RunFormatsFiles(env, name, svg, formats[1..], next);
        UpdateIsMerge(pass.files, f, c);
        MergeAssociative(pass.files, map[f := c], FormatWrites(env, name, svg, formats[1..]));
      } else {
        MergeEmpty(pass.files);
      }
    }
  }

  lemma IconStepFiles(env: Env, icon: IconData, pass: Pass)
    requires env.faults.unwritable == {}
    ensures IconStep(env, icon, pass).files == pass.files + IconWrites(env, icon)
  {
    var o := Optimized(env, icon.svg);
    if o.Success? {
      RunFormatsFiles(env, IconName(env, icon), o.value, env.config.output.formats, pass);
    } else {
      MergeEmpty(pass.files);
    }
  }

  /** With every file writable, a pass leaves the directory as it found it, overridden by the batch's writes. */
  lemma {:induction false} RunIconsFiles(env: Env, pass: Pass, icons: seq<IconData>)
    requires env.faults.unwritable == {}
    ensures RunIcons(env, pass, icons).files == pass.files + BatchWrites(env, icons)
    decreases |icons|
  {
    if icons == [] {
      MergeEmpty(pass.files);
    } else {
      var next := IconStep(env, icons[0], pass);
      IconStepFiles(env, icons[0], pass);
      RunIconsFiles(env, next, icons[1..]);
      MergeAssociative(pass.files, IconWrites(env, icons[0]), BatchWrites(env, icons[1..]));
    }
  }

  /**
   * Running the same batch again over the directory a pass left behind changes no file
   * (the deletion step aside), whatever the report held: the sync is idempotent on disk.
   */
  lemma SecondPassChangesNothing(env: Env, r0: SyncResult, r1: SyncResult, files: map<string, string>, icons: seq<IconData>)
    requires env.faults.unwritable == {}
    ensures var first := RunIcons(env, Pass(r0, files), icons);
            RunIcons(env, Pass(r1, first.files), icons).files == first.files
  {
    var first := RunIcons(env, Pass(r0, files), icons);
    RunIconsFiles(env, Pass(r0, files), icons);
    RunIconsFiles(env, Pass(r1, first.files), icons);
    MergeIdempotent(files, BatchWrites(env, icons));
  }
}
