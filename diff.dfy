/**
 * The diff command's driver (`DiffCmd.Run` in pkg/kubecfg/diff.go): visit the
 * objects in sorted order, fetch each one's live counterpart, compare, and
 * stream one report section per object; stop at the first error; end with the
 * `ErrDiffFound` sentinel when some object is absent or modified.
 *
 * The cluster client, the resource describer and the diff formatter are
 * parameters. "Modified" is structural inequality of the compared trees.
 */
module Diff {
  import opened Json
  import opened Elision
  import opened Resources
  import opened Ordering
  import opened Wrappers

  datatype DiffCmd = DiffCmd(defaultNamespace: string, diffStrategy: string)

  /**
   * What the client side yields for one object: the client could not be
   * built, the object is not on the server, the fetch failed otherwise, or
   * the live object's body.
   */
  datatype FetchResult =
    | ClientErr(msg: string)
    | NotFound
    | FetchErr(msg: string)
    | Found(live: map<string, Value>)

  /**
   * What `Run` returns: nil, the `ErrDiffFound` sentinel, any other error,
   * or the panic that the elision raises on mismatched shapes.
   */
  datatype Status = Ok | ErrDiffFound | Failed(msg: string) | Panicked

  /** One object's contribution: the chunks written, and whether it stops the run. */
  datatype StepResult =
    | Written(lines: seq<string>, found: bool)
    | Aborted(lines: seq<string>, status: Status)

  /** The separator and the live/config line that open an object's section. */
  function Header(desc: string): (h: seq<string>)
    ensures |h| == 2 && h[0] == "---\n"
    ensures |h[1]| == 2 * |desc| + 18 && h[1][..7] == "- live " && h[1][7..7 + |desc|] == desc
    ensures h[1][7 + |desc|..] == "\n+ config " + desc + "\n"
  {
    ["---\n", "- live " + desc + "\n+ config " + desc + "\n"]
  }

  /** Different objects' descriptions open their sections with different headers. */
  lemma HeaderInjective(a: string, b: string)
    ensures Header(a) == Header(b) ==> a == b
  {
    if Header(a) == Header(b) {
      var la, lb := Header(a)[1], Header(b)[1];
      assert |la| == 2 * |a| + 18 && |lb| == 2 * |b| + 18;
      assert la[7..7 + |a|] == a && lb[7..7 + |b|] == b;
    }
  }

  /** The live body the comparison uses: elided in "subset" mode, whole otherwise. */
  function Compared(cmd: DiffCmd, config: map<string, Value>, live: map<string, Value>): (r: map<string, Value>)
    requires cmd.diffStrategy == "subset" ==> MapCompatible(config, live)
    ensures cmd.diffStrategy != "subset" ==> r == live
    ensures cmd.diffStrategy == "subset" ==> r.Keys <= config.Keys && (r == config <==> MapAgrees(config, live))
  {
    if cmd.diffStrategy == "subset" then
      UnchangedIffAgrees(JObj(config), JObj(live));
      RemoveMapFields(config, live)
    else live
  }

  /**
   * The object is on the server, the elision (if any) does not panic, and
   * the compared live body is `same` (unchanged) or not (modified).
   */
  predicate FoundWith(
    cmd: DiffCmd, obj: Object,
    fetch: (Object, string) -> FetchResult, same: bool)
  {
    var f := fetch(obj, cmd.defaultNamespace);
    && f.Found?
    && (cmd.diffStrategy == "subset" ==> MapCompatible(obj.content, f.live))
    && (Compared(cmd, obj.content, f.live) == obj.content <==> same)
  }

  /** What the formatter makes of a found, modified object. */
  function Rendering(
    cmd: DiffCmd, obj: Object,
    fetch: (Object, string) -> FetchResult,
    render: (map<string, Value>, map<string, Value>) -> Result<string, string>): Result<string, string>
    requires FoundWith(cmd, obj, fetch, false)
  {
    render(Compared(cmd, obj.content, fetch(obj, cmd.defaultNamespace).live), obj.content)
  }

  /** One iteration of the loop, as a function of what the collaborators answer. */
  function Step(
    cmd: DiffCmd, obj: Object,
    fetch: (Object, string) -> FetchResult,
    describe: Object -> string,
    render: (map<string, Value>, map<string, Value>) -> Result<string, string>): (r: StepResult)
    ensures r.Aborted? ==> r.status.Failed? || r.status.Panicked?
    ensures r.Written? ==> |r.lines| == 3 && r.lines[..2] == Header(describe(obj))
    ensures fetch(obj, cmd.defaultNamespace).ClientErr? ==>
      r == Aborted([], Failed(fetch(obj, cmd.defaultNamespace).msg))
    ensures fetch(obj, cmd.defaultNamespace).FetchErr? ==>
      r == Aborted([], Failed("Error fetching " + describe(obj) + ": " + fetch(obj, cmd.defaultNamespace).msg))
    ensures fetch(obj, cmd.defaultNamespace).NotFound? ==>
      r == Written(Header(describe(obj)) + [describe(obj) + " doesn't exist on server\n"], true)
    ensures (fetch(obj, cmd.defaultNamespace).Found? && cmd.diffStrategy == "subset" &&
             !MapCompatible(obj.content, fetch(obj, cmd.defaultNamespace).live)) ==>
      r == Aborted(Header(describe(obj)), Panicked)
    ensures r.Written? && fetch(obj, cmd.defaultNamespace).Found? ==>
      (r.found <==> Compared(cmd, obj.content, fetch(obj, cmd.defaultNamespace).live) != obj.content)
    ensures FoundWith(cmd, obj, fetch, true) ==>
      r == Written(Header(describe(obj)) + [describe(obj) + " unchanged\n"], false)
    ensures FoundWith(cmd, obj, fetch, false) && Rendering(cmd, obj, fetch, render).Success? ==>
      r == Written(Header(describe(obj)) + [Rendering(cmd, obj, fetch, render).value], true)
    ensures FoundWith(cmd, obj, fetch, false) && Rendering(cmd, obj, fetch, render).Failure? ==>
      r == Aborted(Header(describe(obj)), Failed(Rendering(cmd, obj, fetch, render).error))
  {
    var desc := describe(obj);
    match fetch(obj, cmd.defaultNamespace)
    case ClientErr(e) => Aborted([], Failed(e))
    case FetchErr(e) => Aborted([], Failed("Error fetching " + desc + ": " + e))
    case NotFound => Written(Header(desc) + [desc + " doesn't exist on server\n"], true)
    case Found(live) =>
      if cmd.diffStrategy == "subset" && !MapCompatible(obj.content, live) then
        Aborted(Header(desc), Panicked)
      else
        var compared := Compared(cmd, obj.content, live);
        if compared != obj.content then
          match render(compared, obj.content)
          case Success(text) => Written(Header(desc) + [text], true)
          case Failure(e) => Aborted(Header(desc), Failed(e))
        else
          Written(Header(desc) + [desc + " unchanged\n"], false)
  }

  /**
   * The rest of the loop, given what has been written so far and the current
   * `diffFound`: everything written by the end, and the status returned.
   */
  function Drive(
    cmd: DiffCmd, objs: seq<Object>,
    fetch: (Object, string) -> FetchResult,
    describe: Object -> string,
    render: (map<string, Value>, map<string, Value>) -> Result<string, string>,
    out: seq<string>, diffFound: bool): (r: (seq<string>, Status))
    ensures r.1 == Ok ==> !diffFound
    ensures |out| <= |r.0| && r.0[..|out|] == out
    decreases |objs|
  {
    if objs == [] then (out, if diffFound then ErrDiffFound else Ok)
    else
      match Step(cmd, objs[0], fetch, describe, render)
      case Aborted(lines, status) => (out + lines, status)
      case Written(lines, found) =>
        Drive(cmd, objs[1..], fetch, describe, render, out + lines, diffFound || found)
  }

  /** Every object completes: none of them stops the run. */
  ghost predicate AllWritten(
    cmd: DiffCmd, objs: seq<Object>,
    fetch: (Object, string) -> FetchResult,
    describe: Object -> string,
    render: (map<string, Value>, map<string, Value>) -> Result<string, string>)
    decreases |objs|
  {
    objs == [] ||
    (Step(cmd, objs[0], fetch, describe, render).Written? && AllWritten(cmd, objs[1..], fetch, describe, render))
  }

  ghost predicate AnyFound(
    cmd: DiffCmd, objs: seq<Object>,
    fetch: (Object, string) -> FetchResult,
    describe: Object -> string,
    render: (map<string, Value>, map<string, Value>) -> Result<string, string>)
  {
    exists i :: 0 <= i < |objs| && Step(cmd, objs[i], fetch, describe, render).Written? &&
      Step(cmd, objs[i], fetch, describe, render).found
  }

  /** The sections of objects that all completed, in order. */
  ghost function Transcript(
    cmd: DiffCmd, objs: seq<Object>,
    fetch: (Object, string) -> FetchResult,
    describe: Object -> string,
    render: (map<string, Value>, map<string, Value>) -> Result<string, string>): seq<string>
    decreases |objs|
  {
    if objs == [] then []
    else Step(cmd, objs[0], fetch, describe, render).lines + Transcript(cmd, objs[1..], fetch, describe, render)
  }

  lemma AllWrittenTail(
    cmd: DiffCmd, objs: seq<Object>,
    fetch: (Object, string) -> FetchResult,
    describe: Object -> string,
    render: (map<string, Value>, map<string, Value>) -> Result<string, string>)
    requires objs != [] && AllWritten(cmd, objs, fetch, describe, render)
    ensures Step(cmd, objs[0], fetch, describe, render).Written?
    ensures AllWritten(cmd, objs[1..], fetch, describe, render)
  {
  }

  /**
   * When no object stops the run, the status is nil exactly when nothing was
   * absent or modified, and `ErrDiffFound` otherwise; when some object stops
   * it, the status is that object's error, never `ErrDiffFound`.
   */
  lemma {:induction false} DriveStatus(
    cmd: DiffCmd, objs: seq<Object>,
    fetch: (Object, string) -> FetchResult,
    describe: Object -> string,
    render: (map<string, Value>, map<string, Value>) -> Result<string, string>,
    out: seq<string>, diffFound: bool)
    ensures var status := Drive(cmd, objs, fetch, describe, render, out, diffFound).1;
      && (status == Ok <==>
            AllWritten(cmd, objs, fetch, describe, render) && !diffFound && !AnyFound(cmd, objs, fetch, describe, render))
      && (status == ErrDiffFound <==>
            AllWritten(cmd, objs, fetch, describe, render) && (diffFound || AnyFound(cmd, objs, fetch, describe, render)))
      && (!AllWritten(cmd, objs, fetch, describe, render) ==> status.Failed? || status.Panicked?)
    decreases |objs|
  {
    if objs != [] {
      var step := Step(cmd, objs[0], fetch, describe, render);
      if step.Written? {
        DriveStatus(cmd, objs[1..], fetch, describe, render, out + step.lines, diffFound || step.found);
        assert AnyFound(cmd, objs, fetch, describe, render) <==>
          step.found || AnyFound(cmd, objs[1..], fetch, describe, render) by {
          if AnyFound(cmd, objs, fetch, describe, render) && !step.found {
            var i :| 0 <= i < |objs| && Step(cmd, objs[i], fetch, describe, render).Written? &&
              Step(cmd, objs[i], fetch, describe, render).found;
            assert i > 0 && objs[1..][i - 1] == objs[i];
          }
          if AnyFound(cmd, objs[1..], fetch, describe, render) {
            var i :| 0 <= i < |objs[1..]| && Step(cmd, objs[1..][i], fetch, describe, render).Written? &&
              Step(cmd, objs[1..][i], fetch, describe, render).found;
            assert objs[1..][i] == objs[i + 1];
          }
        }
      } else {
        assert !AllWritten(cmd, objs, fetch, describe, render) by {
          assert !Step(cmd, objs[0], fetch, describe, render).Written?;
        }
      }
    }
  }

  /** `Drive` past an object that completes: its lines are written and its verdict is folded in. */
  lemma DriveWritten(
    cmd: DiffCmd, objs: seq<Object>,
    fetch: (Object, string) -> FetchResult,
    describe: Object -> string,
    render: (map<string, Value>, map<string, Value>) -> Result<string, string>,
    out: seq<string>, diffFound: bool)
    requires objs != [] && Step(cmd, objs[0], fetch, describe, render).Written?
    ensures var step := Step(cmd, objs[0], fetch, describe, render);
      Drive(cmd, objs, fetch, describe, render, out, diffFound) ==
        Drive(cmd, objs[1..], fetch, describe, render, out + step.lines, diffFound || step.found)
  {
  }

  /** With no error, the output is the sections of all objects, in order, after what was there. */
  lemma {:induction false} DriveAllWritten(
    cmd: DiffCmd, objs: seq<Object>,
    fetch: (Object, string) -> FetchResult,
    describe: Object -> string,
    render: (map<string, Value>, map<string, Value>) -> Result<string, string>,
    out: seq<string>, diffFound: bool)
    requires AllWritten(cmd, objs, fetch, describe, render)
    ensures Drive(cmd, objs, fetch, describe, render, out, diffFound).0 ==
      out + Transcript(cmd, objs, fetch, describe, render)
    decreases |objs|
  {
    if objs != [] {
      var step := Step(cmd, objs[0], fetch, describe, render);
      AllWrittenTail(cmd, objs, fetch, describe, render);
      DriveAllWritten(cmd, objs[1..], fetch, describe, render, out + step.lines, diffFound || step.found);
      DriveWritten(cmd, objs, fetch, describe, render, out, diffFound);
      assert out + step.lines + Transcript(cmd, objs[1..], fetch, describe, render)
          == out + (step.lines + Transcript(cmd, objs[1..], fetch, describe, render));
    }
  }

  /**
   * Fail-fast: when object `i` is the first to stop the run, the output is
   * the sections of the objects before it followed by what `i` wrote, and
   * the status is `i`'s error.
   */
  lemma {:induction false} DriveFailFast(
    cmd: DiffCmd, objs: seq<Object>, i: nat,
    fetch: (Object, string) -> FetchResult,
    describe: Object -> string,
    render: (map<string, Value>, map<string, Value>) -> Result<string, string>,
    out: seq<string>, diffFound: bool)
    requires i < |objs|
    requires AllWritten(cmd, objs[..i], fetch, describe, render)
    requires Step(cmd, objs[i], fetch, describe, render).Aborted?
    ensures Drive(cmd, objs, fetch, describe, render, out, diffFound) ==
      (out + Transcript(cmd, objs[..i], fetch, describe, render) + Step(cmd, objs[i], fetch, describe, render).lines,
       Step(cmd, objs[i], fetch, describe, render).status)
    decreases i
  {
    if i == 0 {
      assert Transcript(cmd, objs[..0], fetch, describe, render) == [];
      assert out + [] == out;
    } else {
      var step := Step(cmd, objs[0], fetch, describe, render);
      var tail := objs[1..];
      assert objs[..i][1..] == tail[..i - 1] && objs[..i][0] == objs[0];
      AllWrittenTail(cmd, objs[..i], fetch, describe, render);
      assert tail[i - 1] == objs[i];
      DriveFailFast(cmd, tail, i - 1, fetch, describe, render, out + step.lines, diffFound || step.found);
      assert out + step.lines + Transcript(cmd, tail[..i - 1], fetch, describe, render)
          == out + Transcript(cmd, objs[..i], fetch, describe, render);
    }
  }

  /** The objects after the first one that stops the run are never looked at. */
  lemma LaterObjectsIgnored(
    cmd: DiffCmd, objs: seq<Object>, i: nat, later: seq<Object>,
    fetch: (Object, string) -> FetchResult,
    describe: Object -> string,
    render: (map<string, Value>, map<string, Value>) -> Result<string, string>,
    out: seq<string>, diffFound: bool)
    requires i < |objs|
    requires AllWritten(cmd, objs[..i], fetch, describe, render)
    requires Step(cmd, objs[i], fetch, describe, render).Aborted?
    ensures Drive(cmd, objs, fetch, describe, render, out, diffFound) ==
      Drive(cmd, objs[..i + 1] + later, fetch, describe, render, out, diffFound)
  {
    var other := objs[..i + 1] + later;
    assert other[..i] == objs[..i] && other[i] == objs[i];
    DriveFailFast(cmd, objs, i, fetch, describe, render, out, diffFound);
    DriveFailFast(cmd, other, i, fetch, describe, render, out, diffFound);
  }

  /**
   * Each completed object contributes exactly three chunks, in input order:
   * "---", the live/config header, and the object's verdict.
   */
  lemma {:induction false} TranscriptSections(
    cmd: DiffCmd, objs: seq<Object>,
    fetch: (Object, string) -> FetchResult,
    describe: Object -> string,
    render: (map<string, Value>, map<string, Value>) -> Result<string, string>)
    requires AllWritten(cmd, objs, fetch, describe, render)
    ensures |Transcript(cmd, objs, fetch, describe, render)| == 3 * |objs|
    ensures forall i :: 0 <= i < |objs| ==>
      Transcript(cmd, objs, fetch, describe, render)[3 * i..3 * i + 3] == Step(cmd, objs[i], fetch, describe, render).lines
    ensures forall i :: 0 <= i < |objs| ==>
      Transcript(cmd, objs, fetch, describe, render)[3 * i..3 * i + 2] == Header(describe(objs[i]))
    decreases |objs|
  {
    if objs != [] {
      var t := Transcript(cmd, objs, fetch, describe, render);
      var step := Step(cmd, objs[0], fetch, describe, render);
      AllWrittenTail(cmd, objs, fetch, describe, render);
      TranscriptSections(cmd, objs[1..], fetch, describe, render);
      var rest := Transcript(cmd, objs[1..], fetch, describe, render);
      assert t == step.lines + rest;
      forall i | 0 <= i < |objs|
        ensures t[3 * i..3 * i + 3] == Step(cmd, objs[i], fetch, describe, render).lines
      {
        if i > 0 {
          assert objs[1..][i - 1] == objs[i];
          assert t[3 * i..3 * i + 3] == rest[3 * (i - 1)..3 * (i - 1) + 3];
        }
      }
      forall i | 0 <= i < |objs|
        ensures t[3 * i..3 * i + 2] == Header(describe(objs[i]))
      {
        assert t[3 * i..3 * i + 2] == t[3 * i..3 * i + 3][..2];
      }
    }
  }

  /**
   * An object found on the server is reported unchanged exactly when the
   * live body agrees with the config: in "subset" mode on every field the
   * config specifies (see Elision.Agrees), in any other mode entirely.
   */
  lemma StepUnchangedIff(
    cmd: DiffCmd, obj: Object,
    fetch: (Object, string) -> FetchResult,
    describe: Object -> string,
    render: (map<string, Value>, map<string, Value>) -> Result<string, string>)
    requires fetch(obj, cmd.defaultNamespace).Found?
    ensures var live := fetch(obj, cmd.defaultNamespace).live;
      Step(cmd, obj, fetch, describe, render) ==
        Written(Header(describe(obj)) + [describe(obj) + " unchanged\n"], false)
      <==>
      if cmd.diffStrategy == "subset" then MapAgrees(obj.content, live) else live == obj.content
  {
    var live := fetch(obj, cmd.defaultNamespace).live;
    if cmd.diffStrategy == "subset" {
      if MapAgrees(obj.content, live) {
        AgreesIsCompatible(JObj(obj.content), JObj(live));
      }
      if MapCompatible(obj.content, live) {
        UnchangedIffAgrees(JObj(obj.content), JObj(live));
      }
    }
  }

  /** `Drive` on a suffix, unfolded once. */
  lemma DriveAt(
    cmd: DiffCmd, objs: seq<Object>, i: nat,
    fetch: (Object, string) -> FetchResult,
    describe: Object -> string,
    render: (map<string, Value>, map<string, Value>) -> Result<string, string>,
    out: seq<string>, diffFound: bool)
    requires i < |objs|
    ensures var step := Step(cmd, objs[i], fetch, describe, render);
      Drive(cmd, objs[i..], fetch, describe, render, out, diffFound) ==
        if step.Aborted? then (out + step.lines, step.status)
        else Drive(cmd, objs[i + 1..], fetch, describe, render, out + step.lines, diffFound || step.found)
  {
    assert objs[i..][0] == objs[i] && objs[i..][1..] == objs[i + 1..];
  }

  /**
   * The body of `Run`'s loop for one object: what it writes, whether it sets
   * `diffFound`, and the status it returns with when it stops the run.
   */
  method DiffObject(
    cmd: DiffCmd, obj: Object,
    fetch: (Object, string) -> FetchResult,
    describe: Object -> string,
    render: (map<string, Value>, map<string, Value>) -> Result<string, string>)
    returns (written: seq<string>, found: bool, failure: Option<Status>)
    ensures failure.None? ==> Step(cmd, obj, fetch, describe, render) == Written(written, found)
    ensures failure.Some? ==> Step(cmd, obj, fetch, describe, render) == Aborted(written, failure.value)
  {
    written, found := [], false;
    var desc := describe(obj);

    var fetched := fetch(obj, cmd.defaultNamespace);
    if fetched.ClientErr? {
      return written, found, Some(Failed(fetched.msg));
    }
    if fetched.FetchErr? {
      return written, found, Some(Failed("Error fetching " + desc + ": " + fetched.msg));
    }

    written := written + ["---\n"];
    written := written + ["- live " + desc + "\n+ config " + desc + "\n"];
    if fetched.NotFound? {
      written := written + [desc + " doesn't exist on server\n"];
      return written, true, None;
    }

    var liveObject := fetched.live;
    if cmd.diffStrategy == "subset" {
      if !MapCompatible(obj.content, liveObject) {
        return written, found, Some(Panicked);
      }
      liveObject := RemoveMapFields(obj.content, liveObject);
    }

    if liveObject != obj.content {
      found := true;
      var text := render(liveObject, obj.content);
      if text.Failure? {
        return written, found, Some(Failed(text.error));
      }
      written := written + [text.value];
    } else {
      written := written + [desc + " unchanged\n"];
    }
    failure := None;
  }

  /**
   * `Run`: sort, then for each object in turn append its section to the
   * output; stop at the first error; report whether any object differed.
   */
  method Run(
    cmd: DiffCmd, apiObjects: seq<Object>,
    less: (Object, Object) -> bool,
    fetch: (Object, string) -> FetchResult,
    describe: Object -> string,
    render: (map<string, Value>, map<string, Value>) -> Result<string, string>)
    returns (out: seq<string>, status: Status)
    ensures (out, status) == Drive(cmd, SortObjects(apiObjects, less), fetch, describe, render, [], false)
  {
    var objs := SortObjects(apiObjects, less);
    ghost var whole := Drive(cmd, objs, fetch, describe, render, [], false);
    out := [];
    var diffFound := false;
    var i := 0;
    assert objs[i..] == objs;
    while i < |objs|
      invariant 0 <= i <= |objs|
      invariant whole == Drive(cmd, objs[i..], fetch, describe, render, out, diffFound)
    {
      DriveAt(cmd, objs, i, fetch, describe, render, out, diffFound);
      var written, found, failure := DiffObject(cmd, objs[i], fetch, describe, render);
      out := out + written;
      if failure.Some? {
        return out, failure.value;
      }
      diffFound := diffFound || found;
      i := i + 1;
    }

    assert objs[i..] == [];
    if diffFound {
      return out, ErrDiffFound;
    }
    return out, Ok;
  }
}
