/**
 * The validate command (pkg/kubecfg/validate.go): learn which API
 * group-versions the server serves, then check every object against its
 * schema, collecting errors instead of stopping at the first.
 *
 * The discovery call, the schema download and the schema check are
 * parameters. The log lines the command prints are summarised per object by
 * a `Verdict`.
 */
module Validate {
  import opened Resources
  import opened Wrappers

  datatype ValidateCmd = ValidateCmd(ignoreUnknown: bool)

  /** How one object fared: skipped as unknown, or checked with these errors. */
  datatype Verdict = Skipped | Checked(errs: seq<string>)

  /** `schema.GroupVersion.String()`: "group/version", or just the version for the core group. */
  function GroupVersionString(gv: GroupVersion): (s: string)
    ensures gv.group == "" ==> s == gv.version
    ensures gv.group != "" ==> |s| == |gv.group| + 1 + |gv.version| && s[|gv.group|] == '/'
    ensures gv.group != "" ==> s[..|gv.group|] == gv.group && s[|gv.group| + 1..] == gv.version
  {
    if |gv.group| > 0 then gv.group + "/" + gv.version else gv.version
  }

  /** The strings the server's group-versions print as. */
  ghost function ServedStrings(served: seq<GroupVersion>): set<string>
  {
    set j | 0 <= j < |served| :: GroupVersionString(served[j])
  }

  /** The predicate `newGroupVersionChecker` returns, applied to `gv`. */
  predicate IsKnown(known: set<string>, gv: GroupVersion)
    ensures gv.group == "" ==> (IsKnown(known, gv) <==> gv.version in known)
    ensures gv.group != "" ==> (IsKnown(known, gv) <==> gv.group + "/" + gv.version in known)
  {
    GroupVersionString(gv) in known
  }

  /**
   * newGroupVersionChecker: the discovery error if `ServerGroups` fails;
   * otherwise the set of served group-version strings, built one insertion at
   * a time, so that a group-version is known exactly when some served one
   * prints the same.
   */
  method NewGroupVersionChecker(serverGroups: Result<seq<GroupVersion>, string>)
    returns (r: Result<set<string>, string>)
    ensures serverGroups.Failure? ==> r == Failure(serverGroups.error)
    ensures serverGroups.Success? ==> r == Success(ServedStrings(serverGroups.value))
    ensures serverGroups.Success? ==> forall gv :: IsKnown(r.value, gv) <==>
      exists j :: 0 <= j < |serverGroups.value| && GroupVersionString(serverGroups.value[j]) == GroupVersionString(gv)
  {
    if serverGroups.Failure? {
      return Failure(serverGroups.error);
    }
    var served := serverGroups.value;
    var groupVersions: set<string> := {};
    for i := 0 to |served|
      invariant forall s :: s in groupVersions <==> exists j :: 0 <= j < i && GroupVersionString(served[j]) == s
    {
      groupVersions := groupVersions + {GroupVersionString(served[i])};
    }
    assert groupVersions == ServedStrings(served) by {
      forall s | s in ServedStrings(served) ensures s in groupVersions {
        var j :| 0 <= j < |served| && GroupVersionString(served[j]) == s;
      }
    }
    return Success(groupVersions);
  }

  /**
   * One iteration of `Run`'s loop: skip an object of an unknown
   * group-version when asked to; otherwise one error if its schema cannot be
   * fetched, else exactly the errors the schema check reports.
   */
  function ObjectVerdict<S>(
    cmd: ValidateCmd, known: set<string>, obj: Object,
    schemaFor: GroupVersion -> Result<S, string>,
    validate: (S, Object) -> seq<string>): (v: Verdict)
    ensures v.Skipped? <==> cmd.ignoreUnknown && !IsKnown(known, obj.gv)
    ensures v.Checked? && schemaFor(obj.gv).Failure? ==> |v.errs| == 1
    ensures v.Checked? && schemaFor(obj.gv).Success? ==> v.errs == validate(schemaFor(obj.gv).value, obj)
  {
    if cmd.ignoreUnknown && !IsKnown(known, obj.gv) then Skipped
    else
      match schemaFor(obj.gv)
      case Failure(e) => Checked(["Unable to fetch schema: " + e])
      case Success(schema) => Checked(validate(schema, obj))
  }

  predicate HasErrors(v: Verdict)
  {
    v.Checked? && |v.errs| > 0
  }

  /**
   * `Run`: fail with the discovery error before looking at any object;
   * otherwise give every object its verdict, whatever the earlier ones were,
   * and fail with "Validation failed" exactly when some object had an error.
   */
  method Run<S>(
    cmd: ValidateCmd, apiObjects: seq<Object>,
    serverGroups: Result<seq<GroupVersion>, string>,
    schemaFor: GroupVersion -> Result<S, string>,
    validate: (S, Object) -> seq<string>)
    returns (verdicts: seq<Verdict>, err: Option<string>)
    ensures serverGroups.Failure? ==> verdicts == [] && err == Some(serverGroups.error)
    ensures serverGroups.Success? ==> |verdicts| == |apiObjects|
    ensures serverGroups.Success? ==> forall i :: 0 <= i < |apiObjects| ==>
      verdicts[i] == ObjectVerdict(cmd, ServedStrings(serverGroups.value), apiObjects[i], schemaFor, validate)
    ensures serverGroups.Success? ==> err == (if exists i :: 0 <= i < |verdicts| && HasErrors(verdicts[i])
                                              then Some("Validation failed") else None)
  {
    var checker := NewGroupVersionChecker(serverGroups);
    if checker.Failure? {
      return [], Some(checker.error);
    }
    var known := checker.value;

    var hasError := false;
    verdicts := [];
    for i := 0 to |apiObjects|
      invariant |verdicts| == i
      invariant forall j :: 0 <= j < i ==> verdicts[j] == ObjectVerdict(cmd, known, apiObjects[j], schemaFor, validate)
      invariant hasError <==> exists j :: 0 <= j < i && HasErrors(verdicts[j])
    {
      var obj := apiObjects[i];
      var gv := obj.gv;
      if cmd.ignoreUnknown && !IsKnown(known, gv) {
        verdicts := verdicts + [Skipped];
        assert verdicts[i] == ObjectVerdict(cmd, known, obj, schemaFor, validate);
        continue;
      }

      var allErrs: seq<string> := [];
      var schema := schemaFor(gv);
      if schema.Failure? {
        allErrs := allErrs + ["Unable to fetch schema: " + schema.error];
      } else {
        allErrs := allErrs + validate(schema.value, obj);
      }

      if |allErrs| > 0 {
        hasError := true;
      }
      verdicts := verdicts + [Checked(allErrs)];
      assert verdicts[i] == ObjectVerdict(cmd, known, obj, schemaFor, validate);
    }

    if hasError {
      return verdicts, Some("Validation failed");
    }
    return verdicts, None;
  }
}
