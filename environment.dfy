/**
 * Environment: the page's set of active font faces (`document.fonts`) as
 * the loader sees it, and one run of the registration sequence `loadFonts`
 * starts (FontLoader.js lines 12-53). The browser's asynchronous font API
 * is reduced to its observable order: a face is added, the add settles, a
 * probe is issued, the probe settles; each settlement is a method call.
 */
module Environment {
  import opened Paths
  import opened Fonts
  import opened Seqs

  /**
   * An active face: family, descriptors, the provenance tag `_type` the
   * loader sets on the faces it adds (absent on faces from elsewhere), and
   * the file it was loaded from.
   */
  datatype ActiveFace = ActiveFace(family: string, weight: string, style: string, tag: Option<RepoKind>, source: Path)

  /** The face the loader registers for a repository face (lines 39-41). */
  function Registered(v: Variant): ActiveFace {
    ActiveFace(v.name, v.weight, v.style, Some(v.kind), v.filePath)
  }

  function RegisterAll(vs: seq<Variant>): (r: seq<ActiveFace>)
    ensures |r| == |vs|
  {
    seq(|vs|, i requires 0 <= i < |vs| => Registered(vs[i]))
  }

  lemma RegisterAllSnoc(vs: seq<Variant>, k: nat)
    requires k < |vs|
    ensures RegisterAll(vs[..k + 1]) == RegisterAll(vs[..k]) + [Registered(vs[k])]
  {
    var a, b := RegisterAll(vs[..k + 1]), RegisterAll(vs[..k]) + [Registered(vs[k])];
    forall i | 0 <= i < |a|
      ensures a[i] == b[i]
    {
    }
  }

  /** The CSS font shorthand the loader probes with (line 45): style, weight, size, quoted family. */
  function ProbeString(v: Variant): string {
    v.style + " " + v.weight + " 1em '" + v.name + "'"
  }

  /** The probe string names the face's family last, between quotes, after its style. */
  lemma ProbeStringShape(v: Variant)
    ensures var p := ProbeString(v);
      |p| == |v.style| + |v.weight| + |v.name| + 8
      && p[..|v.style|] == v.style
      && p[|p| - |v.name| - 2..] == "'" + v.name + "'"
  {
    var p := ProbeString(v);
    assert p == v.style + " " + v.weight + " 1em " + ("'" + v.name + "'");
  }

  /** The tagged faces of a list, in order (the forEach of lines 19-22). */
  function Tagged(s: seq<ActiveFace>): (r: seq<ActiveFace>)
    ensures |r| <= |s|
    decreases |s|
  {
    if s == [] then []
    else
      var init := Tagged(s[..|s| - 1]);
      if s[|s| - 1].tag.Some? then init + [s[|s| - 1]] else init
  }

  /** The untagged faces of a list, in order: what the page keeps. */
  function Untagged(s: seq<ActiveFace>): (r: seq<ActiveFace>)
    ensures |r| <= |s|
    decreases |s|
  {
    if s == [] then []
    else
      var init := Untagged(s[..|s| - 1]);
      if s[|s| - 1].tag.None? then init + [s[|s| - 1]] else init
  }

  /** The faces of s that are not among ex, in order. */
  function Outside(s: seq<ActiveFace>, ex: seq<ActiveFace>): (r: seq<ActiveFace>)
    ensures |r| <= |s|
    decreases |s|
  {
    if s == [] then []
    else
      var init := Outside(s[..|s| - 1], ex);
      if s[|s| - 1] in ex then init else init + [s[|s| - 1]]
  }

  /** A face is collected exactly when it is active and tagged. */
  lemma {:induction false} TaggedMembers(s: seq<ActiveFace>, f: ActiveFace)
    ensures f in Tagged(s) <==> f in s && f.tag.Some?
    decreases |s|
  {
    if s != [] {
      var init := s[..|s| - 1];
      TaggedMembers(init, f);
      assert s == init + [s[|s| - 1]];
    }
  }

  /** Deleting one more face from what is left is deleting it along with the others. */
  lemma {:induction false} OutsideStep(s: seq<ActiveFace>, ex: seq<ActiveFace>, f: ActiveFace)
    ensures Outside(Outside(s, ex), [f]) == Outside(s, ex + [f])
    decreases |s|
  {
    if s != [] {
      var init := s[..|s| - 1];
      var last := s[|s| - 1];
      OutsideStep(init, ex, f);
      var left := Outside(init, ex);
      if last !in ex {
        assert (left + [last])[..|left|] == left;
      }
    }
  }

  /** Deleting a list holding every tagged face and only tagged faces leaves the untagged ones. */
  lemma {:induction false} OutsideTagged(s: seq<ActiveFace>, ex: seq<ActiveFace>)
    requires forall i :: 0 <= i < |s| && s[i].tag.Some? ==> s[i] in ex
    requires forall x :: x in ex ==> x.tag.Some?
    ensures Outside(s, ex) == Untagged(s)
    decreases |s|
  {
    if s != [] {
      var init := s[..|s| - 1];
      forall i | 0 <= i < |init| && init[i].tag.Some?
        ensures init[i] in ex
      {
        assert init[i] == s[i];
      }
      OutsideTagged(init, ex);
    }
  }

  /** `document.fonts`: the active faces, and the probes issued through `document.fonts.load`. */
  class FontEnvironment {
    var active: seq<ActiveFace>
    var probes: seq<string>

    constructor (active: seq<ActiveFace>)
      ensures this.active == active && probes == []
    {
      this.active := active;
      probes := [];
    }

    /** `document.fonts.add(face)` (line 43). */
    method Add(face: ActiveFace)
      modifies this
      ensures active == old(active) + [face] && probes == old(probes)
    {
      active := active + [face];
    }

    /** `document.fonts.delete(face)` (lines 24-26). */
    method Delete(face: ActiveFace)
      modifies this
      ensures active == Outside(old(active), [face]) && probes == old(probes)
    {
      active := Outside(active, [face]);
    }

    /** `document.fonts.load(css)` (line 46), as far as the order of probes goes. */
    method Probe(css: string)
      modifies this
      ensures probes == old(probes) + [css] && active == old(active)
    {
      probes := probes + [css];
    }

    /**
     * Lines 19-27: collect every active face that carries a provenance tag,
     * then delete each collected face. Exactly the untagged faces remain,
     * in their order.
     */
    method RemoveTagged()
      modifies this
      ensures active == Untagged(old(active)) && probes == old(probes)
    {
      var removed: seq<ActiveFace> := [];
      var i := 0;
      while i < |active|
        invariant 0 <= i <= |active|
        invariant removed == Tagged(active[..i])
        invariant active == old(active) && probes == old(probes)
      {
        TakeSnoc(active, i);
        if active[i].tag.Some? {
          removed := removed + [active[i]];
        }
        i := i + 1;
      }
      assert active[..i] == active;
      ghost var original := active;
      assert Outside(original, removed[..0]) == original by {
        OutsideNone(original);
      }
      var k := 0;
      while k < |removed|
        invariant 0 <= k <= |removed|
        invariant active == Outside(original, removed[..k])
        invariant probes == old(probes)
      {
        OutsideStep(original, removed[..k], removed[k]);
        TakeSnoc(removed, k);
        Delete(removed[k]);
        k := k + 1;
      }
      assert removed[..k] == removed;
      forall x | x in removed
        ensures x.tag.Some?
      {
        TaggedMembers(original, x);
      }
      forall j | 0 <= j < |original| && original[j].tag.Some?
        ensures original[j] in removed
      {
        TaggedMembers(original, original[j]);
      }
      OutsideTagged(original, removed);
    }
  }

  /** Deleting nothing leaves every face. */
  lemma {:induction false} OutsideNone(s: seq<ActiveFace>)
    ensures Outside(s, []) == s
    decreases |s|
  {
    if s != [] {
      OutsideNone(s[..|s| - 1]);
      assert s == s[..|s| - 1] + [s[|s| - 1]];
    }
  }

  /**
   * Where a run stands: before its first step, waiting for the add of face
   * `index` to settle, waiting for its probe to settle, or finished.
   */
  datatype Stage = Idle | Adding | Probing | Done

  /**
   * One run of the registration sequence: the closure state of `next`
   * (lines 28-50), with the callback and the completion event counted.
   */
  class FontLoadRun {
    const faces: seq<Variant>
    const env: FontEnvironment
    const hasCallback: bool
    ghost const base: seq<ActiveFace>
    var index: int
    var stage: Stage
    var callbackCalls: nat
    var eventsEmitted: nat

    /** How many faces have been handed to the page so far. */
    ghost function Added(): nat
      reads this
    {
      if stage == Done then |faces| else if index < 0 then 0 else index + 1
    }

    /**
     * The faces are handed to the page one at a time in list order, and the
     * callback and the completion event have fired once exactly when the run
     * is finished, which is when the index has passed the last face.
     */
    ghost predicate Valid()
      reads this, env
    {
      -1 <= index <= |faces|
      && (stage == Idle <==> index == -1)
      && (stage == Done <==> index == |faces|)
      && Added() <= |faces|
      && env.active == base + RegisterAll(faces[..Added()])
      && callbackCalls == (if stage == Done && hasCallback then 1 else 0)
      && eventsEmitted == (if stage == Done then 1 else 0)
    }

    /** The settlements still to come at most: two per face not yet finished. */
    ghost function Remaining(): nat
      reads this
      requires -1 <= index <= |faces|
    {
      match stage
      case Idle => 2 * |faces| + 1
      case Adding => 2 * (|faces| - index)
      case Probing => if index < |faces| then 2 * (|faces| - index) - 1 else 0
      case Done => 0
    }

    /** `var index = -1` with the list and callback captured (lines 16-17, 28). */
    constructor (faces: seq<Variant>, env: FontEnvironment, hasCallback: bool)
      ensures this.faces == faces && this.env == env && this.hasCallback == hasCallback
      ensures base == env.active && stage == Idle && Valid()
    {
      this.faces := faces;
      this.env := env;
      this.hasCallback := hasCallback;
      base := env.active;
      index := -1;
      stage := Idle;
      callbackCalls := 0;
      eventsEmitted := 0;
      new;
      assert faces[..0] == [];
    }

    /**
     * `next` (lines 29-50): advance the index; past the last face, call the
     * callback (if any) and emit the completion event; otherwise add the
     * face at the index to the page and wait for the add to settle.
     */
    method Next()
      requires Valid() && stage != Done
      modifies this, env
      ensures Valid()
      ensures index == old(index) + 1 && env.probes == old(env.probes)
      ensures index == |faces| ==> stage == Done && env.active == old(env.active)
      ensures index < |faces| ==> stage == Adding && env.active == old(env.active) + [Registered(faces[index])]
      ensures Remaining() < old(Remaining())
    {
      index := index + 1;
      if index >= |faces| {
        if hasCallback {
          callbackCalls := callbackCalls + 1;
        }
        eventsEmitted := eventsEmitted + 1;
        stage := Done;
        return;
      }
      RegisterAllSnoc(faces, index);
      env.Add(Registered(faces[index]));
      stage := Adding;
    }

    /**
     * The add of the current face settled (lines 44, 49): on success probe
     * it with its CSS shorthand and wait; on failure go on to the next face.
     */
    method AddSettled(success: bool)
      requires Valid() && stage == Adding
      modifies this, env
      ensures Valid()
      ensures success ==> stage == Probing && index == old(index)
                          && env.probes == old(env.probes) + [ProbeString(faces[index])]
                          && env.active == old(env.active)
      ensures !success ==> index == old(index) + 1 && env.probes == old(env.probes)
      ensures !success && index == |faces| ==> stage == Done && env.active == old(env.active)
      ensures !success && index < |faces| ==>
                stage == Adding && env.active == old(env.active) + [Registered(faces[index])]
      ensures Remaining() < old(Remaining())
    {
      if success {
        env.Probe(ProbeString(faces[index]));
        stage := Probing;
      } else {
        Next();
      }
    }

    /** The probe settled (lines 46-48): success and failure alike go on to the next face. */
    method ProbeSettled(success: bool)
      requires Valid() && stage == Probing
      modifies this, env
      ensures Valid()
      ensures index == old(index) + 1 && env.probes == old(env.probes)
      ensures index == |faces| ==> stage == Done && env.active == old(env.active)
      ensures index < |faces| ==> stage == Adding && env.active == old(env.active) + [Registered(faces[index])]
      ensures Remaining() < old(Remaining())
    {
      Next();
    }
  }

  /**
   * A finished run has handed every face to the page, after the faces that
   * were there when it started, and fired the callback and the event once.
   */
  lemma FinishedRun(run: FontLoadRun)
    requires run.Valid() && run.stage == Done
    ensures run.env.active == run.base + RegisterAll(run.faces)
    ensures run.eventsEmitted == 1 && run.callbackCalls == (if run.hasCallback then 1 else 0)
  {
    assert run.faces[..|run.faces|] == run.faces;
  }

  /** An unfinished run has fired neither the callback nor the event. */
  lemma UnfinishedRun(run: FontLoadRun)
    requires run.Valid() && run.stage != Done
    ensures run.eventsEmitted == 0 && run.callbackCalls == 0
    ensures run.index < |run.faces|
  {
  }
}
