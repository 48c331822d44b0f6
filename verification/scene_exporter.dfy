/**
  The export decision pipeline: the format check against
  `SUPPORTED_FORMATS`, the validator run, the construction of the
  `ExportResult`, the four scene checks `export_scene` installs, and the
  per-reference loop of `batch_export_references`.

  The host is abstracted: a validator is its name and what calling it did,
  the scene is the few facts the checks read, and the file write is the
  outcome `cmds.file` had. Durations are not modelled.
 */
module SceneExporter {
  import opened Wrappers
  import opened Text
  import opened Seqs

  /** `SUPPORTED_FORMATS`: file suffix to the `type` passed to `cmds.file`. */
  const SupportedFormats: map<string, string> := map[
    ".ma" := "mayaAscii",
    ".mb" := "mayaBinary",
    ".fbx" := "FBX export",
    ".abc" := "Alembic",
    ".usd" := "USD Export"]

  // ---------------------------------------------------------------------------
  // The suffix of a path

  /** `Path(path).name` for a normalized POSIX path: the text after the last `/`. */
  function FileName(path: string): (r: string)
    ensures '/' !in r
  {
    AfterLast(path, '/')
  }

  /**
    `Path(path).suffix`: from the last `.` of the file name to its end, provided
    that dot is neither the name's first character nor its last; `""` otherwise.
   */
  function Suffix(path: string): (r: string)
    ensures r == "" || (|r| >= 2 && r[0] == '.' && '.' !in r[1..] && '/' !in r)
    ensures r != "" ==> |r| < |FileName(path)| && FileName(path)[|FileName(path)| - |r|..] == r
  {
    var name := FileName(path);
    var i := LastIndexOf(name, '.');
    if 0 < i < |name| - 1 then
      assert forall k :: 1 <= k < |name| - i ==> name[i..][k] == name[i + k];
      name[i..]
    else ""
  }

  /** A directory prefix: empty, or ending in `/`. */
  predicate IsDirPrefix(dir: string) {
    dir == [] || dir[|dir| - 1] == '/'
  }

  lemma FileNameUnder(dir: string, name: string)
    requires IsDirPrefix(dir) && '/' !in name
    ensures FileName(dir + name) == name
  {
    if dir != [] {
      var d := dir[..|dir| - 1];
      assert dir + name == d + ['/'] + name;
      SplitLastJoin(d, name, '/');
    }
  }

  /** In `stem.ext` with no `.` in `ext`, the last `.` is the one after the stem. */
  lemma LastDotAfterStem(stem: string, ext: string)
    requires '.' !in ext
    ensures LastIndexOf(stem + "." + ext, '.') == |stem|
  {
    var name := stem + "." + ext;
    assert name[|stem|] == '.';
  }

  /** A file `stem.ext` with a non-empty stem has the suffix `.ext`, whatever dots the stem holds. */
  lemma SuffixOfStemAndExtension(dir: string, stem: string, ext: string)
    requires IsDirPrefix(dir) && stem != [] && ext != []
    requires '/' !in stem && '/' !in ext && '.' !in ext
    ensures Suffix(dir + stem + "." + ext) == "." + ext
  {
    var name := stem + "." + ext;
    assert name[|stem|..] == "." + ext;
    assert dir + stem + "." + ext == dir + name;
    FileNameUnder(dir, name);
    LastDotAfterStem(stem, ext);
  }

  /** A hidden file such as `.ma` has no suffix: its only dot is its first character. */
  lemma HiddenFileHasNoSuffix(dir: string, ext: string)
    requires IsDirPrefix(dir) && '/' !in ext && '.' !in ext
    ensures Suffix(dir + "." + ext) == ""
  {
    var name := "." + ext;
    assert "" + "." + ext == name;
    assert dir + "." + ext == dir + name;
    FileNameUnder(dir, name);
    LastDotAfterStem("", ext);
  }

  // ---------------------------------------------------------------------------
  // _validate_config

  /** `_validate_config`: the lower-cased suffix of the output path is a supported format. */
  function ValidateConfig(path: string): (ok: bool)
    ensures ok ==> ToLower(Suffix(path)) in {".ma", ".mb", ".fbx", ".abc", ".usd"}
    ensures ok <==> ToLower(Suffix(path)) in SupportedFormats
  {
    ToLower(Suffix(path)) in SupportedFormats
  }

  /**
    A path `dir/stem.ext` is accepted exactly when `.ext`, lower-cased, is a
    supported suffix: `.MA` is accepted like `.ma`, `.obj` is not.
   */
  lemma ValidateConfigByExtension(dir: string, stem: string, ext: string)
    requires IsDirPrefix(dir) && stem != [] && ext != []
    requires '/' !in stem && '/' !in ext && '.' !in ext
    ensures ValidateConfig(dir + stem + "." + ext) <==> "." + ToLower(ext) in SupportedFormats
  {
    SuffixOfStemAndExtension(dir, stem, ext);
    ToLowerAppend(".", ext);
    assert ToLower(".") == ".";
  }

  // ---------------------------------------------------------------------------
  // _run_validators

  /** What calling a validator did: returned true, returned false, or raised with a message. */
  datatype Outcome = Passed | Failed | Raised(message: string)

  /** A validator: its `__name__` and the outcome of calling it. */
  datatype Validator = Validator(name: string, outcome: Outcome)

  /** The validator did not pass. */
  predicate IsFailing(v: Validator) {
    !v.outcome.Passed?
  }

  /** The error a validator named `name` contributes when it returns false. */
  function FailureMessage(name: string): string {
    "Validation failed: " + name
  }

  /** Different validators report different failures: the name can be read back from the message. */
  lemma FailureMessageNamesValidator(a: string, b: string)
    ensures FailureMessage(a) == FailureMessage(b) <==> a == b
  {
    if FailureMessage(a) == FailureMessage(b) {
      assert a == FailureMessage(a)[19..];
    }
  }

  /** The error a failing validator contributes. */
  function ErrorMessage(v: Validator): string {
    match v.outcome
    case Raised(m) => "Validator error: " + v.name + " - " + m
    case _ => FailureMessage(v.name)
  }

  /** The errors of a sequence of failing validators, one each, in order. */
  function Messages(vs: seq<Validator>): (ms: seq<string>)
    ensures |ms| == |vs|
    ensures forall i :: 0 <= i < |vs| ==> ms[i] == ErrorMessage(vs[i])
  {
    seq(|vs|, i requires 0 <= i < |vs| => ErrorMessage(vs[i]))
  }

  /** The error list of the `for validator in validators` loop, one iteration per element. */
  function ValidatorErrors(vs: seq<Validator>): (errors: seq<string>)
    ensures errors == [] <==> forall i :: 0 <= i < |vs| ==> vs[i].outcome.Passed?
    ensures |errors| <= |vs|
  {
    if vs == [] then []
    else
      var front := vs[..|vs| - 1];
      var v := vs[|vs| - 1];
      assert forall i :: 0 <= i < |front| ==> front[i] == vs[i];
      ValidatorErrors(front) + (if v.outcome.Passed? then [] else [ErrorMessage(v)])
  }

  /** The loop's errors are the messages of the failing validators, in validator order. */
  lemma {:induction false} ValidatorErrorsAreFailures(vs: seq<Validator>)
    ensures ValidatorErrors(vs) == Messages(Keep(vs, IsFailing))
  {
    if vs != [] {
      var front := vs[..|vs| - 1];
      var v := vs[|vs| - 1];
      assert vs == front + [v];
      ValidatorErrorsAreFailures(front);
      KeepSnoc(front, v, IsFailing);
      var kept := Keep(front, IsFailing);
      assert Messages(kept + [v]) == Messages(kept) + [ErrorMessage(v)];
    }
  }

  /** `_run_validators`: whether there were no errors, and the errors. */
  function RunValidators(vs: seq<Validator>): (r: (bool, seq<string>))
    ensures r.0 <==> r.1 == []
    ensures r.0 <==> forall i :: 0 <= i < |vs| ==> vs[i].outcome.Passed?
    ensures r.1 == Messages(Keep(vs, IsFailing))
  {
    ValidatorErrorsAreFailures(vs);
    var errors := ValidatorErrors(vs);
    (|errors| == 0, errors)
  }

  // ---------------------------------------------------------------------------
  // _create_result and export

  /** `ExportResult` without the duration. */
  datatype ExportResult = ExportResult(success: bool, outputPath: Option<string>, errors: seq<string>, warnings: seq<string>)

  /** `_create_result(success, errors, warnings)`: a path only on success, absent lists as empty lists. */
  function CreateResult(path: string, success: bool, errors: Option<seq<string>>, warnings: Option<seq<string>>): (r: ExportResult)
    ensures r.success == success
    ensures r.outputPath.Some? <==> success
    ensures r.outputPath.Some? ==> r.outputPath.value == path
    ensures errors.None? ==> r.errors == []
    ensures errors.Some? ==> r.errors == errors.value
    ensures warnings.None? ==> r.warnings == []
    ensures warnings.Some? ==> r.warnings == warnings.value
  {
    ExportResult(success, if success then Some(path) else None, errors.GetOr([]), warnings.GetOr([]))
  }

  /**
    `errors or []` and `warnings or []`: leaving a list out and passing an
    empty one build the same result, and the path is dropped from every
    failure whatever path was configured.
   */
  lemma CreateResultAbsentIsEmpty(path: string, other: string, success: bool, errors: Option<seq<string>>, warnings: Option<seq<string>>)
    ensures CreateResult(path, success, None, warnings) == CreateResult(path, success, Some([]), warnings)
    ensures CreateResult(path, success, errors, None) == CreateResult(path, success, errors, Some([]))
    ensures !success ==> CreateResult(path, success, errors, warnings) == CreateResult(other, success, errors, warnings)
  {
  }

  /** The `ExportConfig` fields the pipeline reads. */
  datatype ExportConfig = ExportConfig(outputPath: string, formatType: string, selectedOnly: bool, validators: seq<Validator>)

  /** How the directory creation and `cmds.file` call went: finished, or raised a `RuntimeError`. */
  datatype WriteOutcome = Written | WriteRaised(message: string)

  /**
    `SceneExporter(config).export()`, the write's outcome given: a bad suffix
    fails with one fixed error before any validator runs; failing validators
    fail with their errors before anything is written; a raising write fails
    with its message; otherwise the export succeeds with the output path and
    no errors or warnings.
   */
  function Export(c: ExportConfig, write: WriteOutcome): (r: ExportResult)
    ensures r.success <==> ValidateConfig(c.outputPath) && RunValidators(c.validators).0 && write.Written?
    ensures r.outputPath == (if r.success then Some(c.outputPath) else None)
    ensures r.warnings == []
    ensures r.success ==> r.errors == []
    ensures !ValidateConfig(c.outputPath) ==> r.errors == ["Invalid export configuration"]
    ensures ValidateConfig(c.outputPath) && !RunValidators(c.validators).0 ==>
      r.errors == Messages(Keep(c.validators, IsFailing)) && r.errors != []
    ensures ValidateConfig(c.outputPath) && RunValidators(c.validators).0 && write.WriteRaised? ==>
      r.errors == [write.message]
  {
    if !ValidateConfig(c.outputPath) then
      CreateResult(c.outputPath, false, Some(["Invalid export configuration"]), None)
    else
      var (passed, errors) := RunValidators(c.validators);
      if !passed then CreateResult(c.outputPath, false, Some(errors), None)
      else
        match write
        case Written => CreateResult(c.outputPath, true, None, Some([]))
        case WriteRaised(m) => CreateResult(c.outputPath, false, Some([m]), None)
  }

  /** An unsupported suffix decides the result alone: neither the validators nor the write matter. */
  lemma InvalidConfigIgnoresTheRest(c: ExportConfig, vs: seq<Validator>, w1: WriteOutcome, w2: WriteOutcome)
    requires !ValidateConfig(c.outputPath)
    ensures Export(c, w1) == Export(c.(validators := vs), w2)
  {
  }

  /** Once a validator fails, the write is never reached: its outcome does not matter. */
  lemma FailedValidationIgnoresWrite(c: ExportConfig, w1: WriteOutcome, w2: WriteOutcome)
    requires !RunValidators(c.validators).0
    ensures Export(c, w1) == Export(c, w2)
  {
  }

  // ---------------------------------------------------------------------------
  // SceneValidator and export_scene

  /** What `cmds.referenceQuery(ref, isLoaded=True)` did: true, false, or raised `RuntimeError`. */
  datatype ReferenceState = Loaded | Unloaded | Broken(message: string)

  /**
    The scene facts the checks read: the modified flag, the nodes of type
    `unknown`, the state of each reference, and the long DAG paths.
   */
  datatype SceneState = SceneState(modified: bool, unknownNodes: seq<string>, references: seq<ReferenceState>, dagPaths: seq<string>)

  /** `check_broken_references`: stops at the first reference that is unloaded or raises. */
  function CheckBrokenReferences(refs: seq<ReferenceState>): (ok: bool)
    ensures ok <==> forall i :: 0 <= i < |refs| ==> refs[i].Loaded?
  {
    if refs == [] then true
    else if !refs[0].Loaded? then false
    else
      assert forall i :: 1 <= i < |refs| ==> refs[i] == refs[1..][i - 1];
      CheckBrokenReferences(refs[1..])
  }

  /** The short names of the DAG paths: the text after each path's last `|`. */
  function ShortNames(paths: seq<string>): (ns: seq<string>)
    ensures |ns| == |paths|
    ensures forall i :: 0 <= i < |paths| ==> ns[i] == AfterLast(paths[i], '|')
  {
    seq(|paths|, i requires 0 <= i < |paths| => AfterLast(paths[i], '|'))
  }

  /**
    `check_duplicate_names`: fails when some short name is counted more than
    once. It passes exactly when the short names are all distinct.
   */
  function CheckDuplicateNames(paths: seq<string>): (ok: bool)
    ensures ok <==> NoDup(ShortNames(paths))
  {
    var names := ShortNames(paths);
    NoDupIffCountsAtMostOne(names);
    var ok := !(exists i | 0 <= i < |names| :: Count(names, names[i]) > 1);
    assert ok <==> forall x :: x in names ==> Count(names, x) <= 1 by {
      if !ok {
        var i :| 0 <= i < |names| && Count(names, names[i]) > 1;
        assert names[i] in names;
      }
    }
    ok
  }

  /** Two objects with the same short name under different parents fail the check. */
  lemma SameShortNameIsDuplicate(paths: seq<string>, i: nat, j: nat)
    requires i < j < |paths| && AfterLast(paths[i], '|') == AfterLast(paths[j], '|')
    ensures !CheckDuplicateNames(paths)
  {
    assert ShortNames(paths)[i] == ShortNames(paths)[j];
  }

  function Check(name: string, ok: bool): Validator {
    Validator(name, if ok then Passed else Failed)
  }

  /** The `__name__` of each `SceneValidator` check, in the order `export_scene` installs them. */
  const CheckNames: seq<string> := ["check_unsaved_changes", "check_unknown_nodes", "check_broken_references", "check_duplicate_names"]

  /** The four checks `export_scene` installs when asked to validate, in its order. */
  function SceneValidators(s: SceneState): seq<Validator> {
    [Check(CheckNames[0], !s.modified),
     Check(CheckNames[1], s.unknownNodes == []),
     Check(CheckNames[2], CheckBrokenReferences(s.references)),
     Check(CheckNames[3], CheckDuplicateNames(s.dagPaths))]
  }

  /** The scene passes every check: saved, no unknown nodes, every reference loaded, short names distinct. */
  ghost predicate CleanScene(s: SceneState) {
    && !s.modified
    && s.unknownNodes == []
    && (forall i :: 0 <= i < |s.references| ==> s.references[i].Loaded?)
    && NoDup(ShortNames(s.dagPaths))
  }

  /** The four checks all pass exactly on a clean scene. */
  lemma SceneValidatorsPassIffClean(s: SceneState)
    ensures RunValidators(SceneValidators(s)).0 <==> CleanScene(s)
  {
    var vs := SceneValidators(s);
    var each := vs[0].outcome.Passed? && vs[1].outcome.Passed? && vs[2].outcome.Passed? && vs[3].outcome.Passed?;
    assert each <==> CleanScene(s);
    assert (forall i :: 0 <= i < |vs| ==> vs[i].outcome.Passed?) <==> each by {
      if each {
        forall i | 0 <= i < |vs| ensures vs[i].outcome.Passed? {
          if i == 0 {} else if i == 1 {} else if i == 2 {} else {}
        }
      }
    }
  }

  /** An error is reported exactly when some failing validator reports it. */
  lemma {:induction false} ReportedIffSomeFailure(vs: seq<Validator>, e: string)
    ensures e in Messages(Keep(vs, IsFailing)) <==> exists i :: 0 <= i < |vs| && IsFailing(vs[i]) && ErrorMessage(vs[i]) == e
  {
    var kept := Keep(vs, IsFailing);
    var es := Messages(kept);
    if e in es {
      var j :| 0 <= j < |es| && es[j] == e;
      assert kept[j] in vs;
      var i :| 0 <= i < |vs| && vs[i] == kept[j];
    }
    if exists i :: 0 <= i < |vs| && IsFailing(vs[i]) && ErrorMessage(vs[i]) == e {
      var i :| 0 <= i < |vs| && IsFailing(vs[i]) && ErrorMessage(vs[i]) == e;
      assert vs[i] in kept;
      var j :| 0 <= j < |kept| && kept[j] == vs[i];
      assert es[j] == e;
    }
  }

  /** The four checks have four different names. */
  lemma CheckNamesDistinct()
    ensures NoDup(CheckNames)
  {
    var c := CheckNames;
    assert c[0][6] == 'u' && c[1][6] == 'u' && c[2][6] == 'b' && c[3][6] == 'd';
    assert c[0][8] == 's' && c[1][8] == 'k';
  }

  /** Check `k`'s failure is reported exactly when check `k` fails. */
  lemma {:induction false} FailedCheckReported(vs: seq<Validator>, k: int)
    requires |vs| == |CheckNames| && 0 <= k < |vs|
    requires forall i :: 0 <= i < |vs| ==> vs[i].name == CheckNames[i] && !vs[i].outcome.Raised?
    ensures FailureMessage(CheckNames[k]) in Messages(Keep(vs, IsFailing)) <==> IsFailing(vs[k])
  {
    CheckNamesDistinct();
    ReportedIffSomeFailure(vs, FailureMessage(CheckNames[k]));
    forall i | 0 <= i < |vs| ensures ErrorMessage(vs[i]) == FailureMessage(CheckNames[k]) <==> i == k {
      FailureMessageNamesValidator(vs[i].name, CheckNames[k]);
    }
  }

  /** Only the failures of the named checks are reported. */
  lemma {:induction false} OnlyCheckFailuresReported(vs: seq<Validator>, e: string)
    requires |vs| == |CheckNames|
    requires forall i :: 0 <= i < |vs| ==> vs[i].name == CheckNames[i] && !vs[i].outcome.Raised?
    requires e in Messages(Keep(vs, IsFailing))
    ensures exists k :: 0 <= k < |CheckNames| && e == FailureMessage(CheckNames[k])
  {
    ReportedIffSomeFailure(vs, e);
    var i :| 0 <= i < |vs| && IsFailing(vs[i]) && ErrorMessage(vs[i]) == e;
    assert e == FailureMessage(CheckNames[i]);
  }

  /**
    The errors of a validated export of an unclean scene name exactly the
    checks the scene fails, one `Validation failed: <check>` each, and
    nothing else.
   */
  lemma SceneErrorsNameFailedChecks(s: SceneState)
    ensures var es := Messages(Keep(SceneValidators(s), IsFailing));
      && (FailureMessage(CheckNames[0]) in es <==> s.modified)
      && (FailureMessage(CheckNames[1]) in es <==> s.unknownNodes != [])
      && (FailureMessage(CheckNames[2]) in es <==> !CheckBrokenReferences(s.references))
      && (FailureMessage(CheckNames[3]) in es <==> !CheckDuplicateNames(s.dagPaths))
      && (forall e :: e in es ==> exists k :: 0 <= k < |CheckNames| && e == FailureMessage(CheckNames[k]))
  {
    var vs := SceneValidators(s);
    assert forall i :: 0 <= i < |vs| ==> vs[i].name == CheckNames[i] && !vs[i].outcome.Raised?;
    FailedCheckReported(vs, 0);
    FailedCheckReported(vs, 1);
    FailedCheckReported(vs, 2);
    FailedCheckReported(vs, 3);
    forall e | e in Messages(Keep(vs, IsFailing)) ensures exists k :: 0 <= k < |CheckNames| && e == FailureMessage(CheckNames[k]) {
      OnlyCheckFailuresReported(vs, e);
    }
  }

  /**
    The `format_type` `export_scene` records: the format name of a supported
    suffix, and `"mayaAscii"` for any other.
   */
  function FormatType(outputPath: string): (f: string)
    ensures ValidateConfig(outputPath) ==> f in SupportedFormats.Values
    ensures !ValidateConfig(outputPath) ==> f == "mayaAscii"
  {
    var suffix := ToLower(Suffix(outputPath));
    if suffix in SupportedFormats then SupportedFormats[suffix] else "mayaAscii"
  }

  /**
    The format recorded for `dir/stem.ext` is the one `SUPPORTED_FORMATS`
    gives the lower-cased `.ext`: `scene.FBX` records `"FBX export"`, and an
    unsupported extension such as `.obj` records `"mayaAscii"`.
   */
  lemma FormatOfExtension(dir: string, stem: string, ext: string)
    requires IsDirPrefix(dir) && stem != [] && ext != []
    requires '/' !in stem && '/' !in ext && '.' !in ext
    ensures "." + ToLower(ext) in SupportedFormats ==>
              FormatType(dir + stem + "." + ext) == SupportedFormats["." + ToLower(ext)]
    ensures "." + ToLower(ext) !in SupportedFormats ==> FormatType(dir + stem + "." + ext) == "mayaAscii"
  {
    SuffixOfStemAndExtension(dir, stem, ext);
    ToLowerAppend(".", ext);
    assert ToLower(".") == ".";
  }

  /**
    `export_scene(output_path, selected_only, validate)`: the configuration
    records the format looked up from the suffix, `"mayaAscii"` when unknown,
    and installs the scene checks only when `validate` is set.
   */
  function ExportScene(outputPath: string, selectedOnly: bool, validate: bool, scene: SceneState, write: WriteOutcome): (r: ExportResult)
    ensures r.success <==> ValidateConfig(outputPath) && (validate ==> CleanScene(scene)) && write.Written?
    ensures r.outputPath == (if r.success then Some(outputPath) else None)
    ensures r.warnings == []
    ensures !validate ==> r == Export(ExportConfig(outputPath, FormatType(outputPath), selectedOnly, []), write)
    ensures !ValidateConfig(outputPath) ==> r.errors == ["Invalid export configuration"]
    ensures validate && ValidateConfig(outputPath) && !CleanScene(scene) ==>
      r.errors == Messages(Keep(SceneValidators(scene), IsFailing))
    ensures ValidateConfig(outputPath) && (validate ==> CleanScene(scene)) ==>
      r.errors == (if write.Written? then [] else [write.message])
  {
    var validators := if validate then SceneValidators(scene) else [];
    SceneValidatorsPassIffClean(scene);
    Export(ExportConfig(outputPath, FormatType(outputPath), selectedOnly, validators), write)
  }

  /** Without validation, the scene's state plays no part. */
  lemma UnvalidatedExportIgnoresScene(outputPath: string, selectedOnly: bool, s1: SceneState, s2: SceneState, write: WriteOutcome)
    ensures ExportScene(outputPath, selectedOnly, false, s1, write) == ExportScene(outputPath, selectedOnly, false, s2, write)
  {
  }

  // ---------------------------------------------------------------------------
  // batch_export_references

  /** One loaded reference as the loop sees it: its namespace, its nodes, and how exporting it goes. */
  datatype Reference = Reference(namespace: string, nodes: seq<string>, write: WriteOutcome)

  /** The key and file stem of a reference: its namespace without leading `:`. */
  function RefName(r: Reference): string {
    StripLeading(r.namespace, ':')
  }

  /** `output_dir / name` on a normalized directory. */
  function JoinPath(dir: string, name: string): string {
    dir + "/" + name
  }

  /**
    The result the loop stores for one reference: a failure naming the
    namespace when the reference has no nodes, otherwise an unvalidated export
    of the selection to `<dir>/<namespace><suffix>`.
   */
  function ReferenceResult(r: Reference, dir: string, formatSuffix: string, scene: SceneState): ExportResult {
    if r.nodes == [] then ExportResult(false, None, ["No objects found in reference: " + RefName(r)], [])
    else ExportScene(JoinPath(dir, RefName(r) + formatSuffix), true, false, scene, r.write)
  }

  /**
    A reference without nodes fails with one error naming it and no output
    path; any other reference succeeds exactly when its target path has a
    supported suffix and the write goes through, whatever the scene's state.
   */
  lemma ReferenceResultOutcome(r: Reference, dir: string, formatSuffix: string, scene: SceneState)
    ensures var res := ReferenceResult(r, dir, formatSuffix, scene);
      && (r.nodes == [] ==> !res.success && res.outputPath.None? && res.errors == ["No objects found in reference: " + RefName(r)])
      && (r.nodes != [] ==> (res.success <==> ValidateConfig(JoinPath(dir, RefName(r) + formatSuffix)) && r.write.Written?))
  {
  }

  /** The keys of the references, in order. */
  function RefNames(refs: seq<Reference>): (ns: seq<string>)
    ensures |ns| == |refs|
    ensures forall i :: 0 <= i < |refs| ==> ns[i] == RefName(refs[i])
  {
    seq(|refs|, i requires 0 <= i < |refs| => RefName(refs[i]))
  }

  /** The per-reference results, in order. */
  function ReferenceResults(refs: seq<Reference>, dir: string, formatSuffix: string, scene: SceneState): (rs: seq<ExportResult>)
    ensures |rs| == |refs|
    ensures forall i :: 0 <= i < |refs| ==> rs[i] == ReferenceResult(refs[i], dir, formatSuffix, scene)
  {
    seq(|refs|, i requires 0 <= i < |refs| => ReferenceResult(refs[i], dir, formatSuffix, scene))
  }

  /**
    `batch_export_references(output_directory, format_suffix)`: the loop over
    the references, each storing its result under its key. There is one entry
    per distinct key, and a key shared by several references holds the last
    one's result. The default suffix is `.ma`.
   */
  function BatchExportReferences(refs: seq<Reference>, dir: string, scene: SceneState, formatSuffix: string := ".ma"): (m: map<string, ExportResult>)
    ensures forall k :: k in m <==> k in RefNames(refs)
    ensures forall i :: LastOccurrence(RefNames(refs), i) ==> m[RefName(refs[i])] == ReferenceResult(refs[i], dir, formatSuffix, scene)
  {
    var names := RefNames(refs);
    var results := ReferenceResults(refs, dir, formatSuffix, scene);
    forall i | LastOccurrence(names, i) ensures StoreAll(names, results)[names[i]] == results[i] {
      StoreAllLastWins(names, results, i);
    }
    StoreAll(names, results)
  }

  /** A reference without nodes, not overridden by a later one, is reported as a failure naming its namespace. */
  lemma EmptyReferenceFails(refs: seq<Reference>, dir: string, scene: SceneState, formatSuffix: string, i: nat)
    requires LastOccurrence(RefNames(refs), i) && refs[i].nodes == []
    ensures var res := BatchExportReferences(refs, dir, scene, formatSuffix)[RefName(refs[i])];
      && !res.success && res.outputPath.None?
      && res.errors == ["No objects found in reference: " + RefName(refs[i])]
  {
    ReferenceResultOutcome(refs[i], dir, formatSuffix, scene);
  }
}
