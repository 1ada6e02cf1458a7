/**
  `gif_load` from src/gif.rs: for every event read on this pass, every
  image entity carrying the marker component gets as its texture the frame
  `Gif::get("load", i)` for a fresh random `i` in `0..10`, drawn once per
  image. The random stream is an input (`draws`), consumed in query order.
 */
module Animation {
  import opened FrameStore
  import opened Trigger

  /** The only sequence `gif_load` reads. */
  const LoadKey: string := "load"
  /** `gen_range(0..10)` draws below this bound. */
  const DrawBound: nat := 10

  /** The end state of `gif_load`: it finishes, or a lookup panics. */
  datatype Outcome = Pass | Panic(error: LookupError)

  /**
    Counting the entity at position `j` adds one exactly when it is tagged,
    and no prefix counts more tagged entities than the whole query.
   */
  lemma {:induction false} TaggedRank(tagged: seq<bool>, j: nat)
    requires j < |tagged|
    ensures Count(tagged[..j + 1]) == Count(tagged[..j]) + (if tagged[j] then 1 else 0)
    ensures Count(tagged[..j + 1]) <= Count(tagged)
    decreases |tagged| - j
  {
    assert tagged[..j + 1][..j] == tagged[..j];
    if j + 1 == |tagged| {
      assert tagged[..j + 1] == tagged;
    } else {
      TaggedRank(tagged, j + 1);
    }
  }

  /** Every draw in `draws[lo..hi]` names an existing frame of the "load" sequence. */
  predicate Resolves(g: Gif, draws: seq<nat>, lo: nat, hi: nat)
    requires lo <= hi <= |draws|
  {
    lo == hi || (LoadKey in g.frames && forall k | lo <= k < hi :: draws[k] < |g.frames[LoadKey]|)
  }

  /** Draws valid on a range stay valid on every sub-range. */
  lemma ResolvesWithin(g: Gif, draws: seq<nat>, lo: nat, hi: nat, lo': nat, hi': nat)
    requires lo <= lo' <= hi' <= hi <= |draws|
    requires Resolves(g, draws, lo, hi)
    ensures Resolves(g, draws, lo', hi')
  {
  }

  /** Draws valid on two adjacent ranges are valid on their union. */
  lemma ResolvesJoin(g: Gif, draws: seq<nat>, lo: nat, mid: nat, hi: nat)
    requires lo <= mid <= hi <= |draws|
    requires Resolves(g, draws, lo, mid) && Resolves(g, draws, mid, hi)
    ensures Resolves(g, draws, lo, hi)
  {
  }

  /** One event's pass over the entities, the draws of this pass starting at `base`. */
  function Retexture(g: Gif, textures: seq<Handle>, tagged: seq<bool>, draws: seq<nat>, base: nat): (r: seq<Handle>)
    requires |tagged| == |textures|
    requires base + Count(tagged) <= |draws|
    requires Resolves(g, draws, base, base + Count(tagged))
    ensures |r| == |textures|
  {
    seq(|textures|, j requires 0 <= j < |textures| =>
      if tagged[j] then
        TaggedRank(tagged, j);
        g.frames[LoadKey][draws[base + Count(tagged[..j])]]
      else textures[j])
  }

  /** Entity `j` after one pass: the frame its draw names if tagged, its old texture otherwise. */
  lemma RetextureAt(g: Gif, textures: seq<Handle>, tagged: seq<bool>, draws: seq<nat>, base: nat, j: nat)
    requires |tagged| == |textures|
    requires base + Count(tagged) <= |draws|
    requires Resolves(g, draws, base, base + Count(tagged))
    requires j < |textures|
    ensures Count(tagged[..j]) + (if tagged[j] then 1 else 0) <= Count(tagged)
    ensures !tagged[j] ==> Retexture(g, textures, tagged, draws, base)[j] == textures[j]
    ensures tagged[j] ==> LoadKey in g.frames && draws[base + Count(tagged[..j])] < |g.frames[LoadKey]|
    ensures tagged[j] ==>
      Retexture(g, textures, tagged, draws, base)[j] == g.frames[LoadKey][draws[base + Count(tagged[..j])]]
  {
    TaggedRank(tagged, j);
    if tagged[j] {
      var k := base + Count(tagged[..j]);
      assert base <= k < base + Count(tagged);
      assert LoadKey in g.frames && draws[k] < |g.frames[LoadKey]|;
      assert Retexture(g, textures, tagged, draws, base)[j] == g.frames[LoadKey][draws[k]];
    }
  }

  /** A pass does not depend on what the tagged entities showed before it. */
  lemma RetextureOverwrites(g: Gif, a: seq<Handle>, b: seq<Handle>, tagged: seq<bool>, draws: seq<nat>, base: nat)
    requires |tagged| == |a| == |b|
    requires base + Count(tagged) <= |draws|
    requires Resolves(g, draws, base, base + Count(tagged))
    requires forall j | 0 <= j < |a| && !tagged[j] :: a[j] == b[j]
    ensures Retexture(g, a, tagged, draws, base) == Retexture(g, b, tagged, draws, base)
  {
    forall j | 0 <= j < |a|
      ensures Retexture(g, a, tagged, draws, base)[j] == Retexture(g, b, tagged, draws, base)[j]
    {
      RetextureAt(g, a, tagged, draws, base, j);
      RetextureAt(g, b, tagged, draws, base, j);
    }
  }

  /** Textures after `e` events: every pass rewrites every tagged texture, so the last pass decides. */
  function AfterEvents(g: Gif, textures: seq<Handle>, tagged: seq<bool>, e: nat, draws: seq<nat>): (r: seq<Handle>)
    requires |tagged| == |textures|
    requires e * Count(tagged) <= |draws|
    requires Resolves(g, draws, 0, e * Count(tagged))
    ensures |r| == |textures|
  {
    if e == 0 then textures
    else
      var t := Count(tagged);
      MulStep(e - 1, e, t);
      ResolvesWithin(g, draws, 0, e * t, (e - 1) * t, (e - 1) * t + t);
      Retexture(g, textures, tagged, draws, (e - 1) * t)
  }

  lemma MulStep(a: nat, b: nat, t: nat)
    requires a < b
    ensures a * t + t <= b * t
    ensures (a + 1) * t == a * t + t
  {
    assert (a + 1) * t == a * t + t;
    assert a + 1 <= b;
    assert (a + 1) * t <= b * t;
  }

  /**
    The state part-way through one pass: the first `j` entities are done,
    `k` is the next draw, every draw used so far resolved, each processed
    tagged entity shows the frame its draw names, and nothing else changed.
   */
  ghost predicate PassInv(g: Gif, before: seq<Handle>, cur: seq<Handle>, tagged: seq<bool>, draws: seq<nat>, base: nat, j: nat, k: nat)
  {
    && |before| == |cur| == |tagged| && j <= |tagged|
    && base + Count(tagged) <= |draws|
    && k == base + Count(tagged[..j])
    && k <= base + Count(tagged)
    && Resolves(g, draws, base, k)
    && (forall i | 0 <= i < j && tagged[i] :: base + Count(tagged[..i]) < k)
    && (forall i | 0 <= i < |cur| && (j <= i || !tagged[i]) :: cur[i] == before[i])
    && (forall i | 0 <= i < j && tagged[i] ::
          var r := base + Count(tagged[..i]); cur[i] == g.frames[LoadKey][draws[r]])
  }

  lemma PassStart(g: Gif, before: seq<Handle>, tagged: seq<bool>, draws: seq<nat>, base: nat)
    requires |before| == |tagged| && base + Count(tagged) <= |draws|
    ensures PassInv(g, before, before, tagged, draws, base, 0, base)
  {
    assert tagged[..0] == [];
  }

  /** An untagged entity is skipped. */
  lemma PassSkip(g: Gif, before: seq<Handle>, cur: seq<Handle>, tagged: seq<bool>, draws: seq<nat>, base: nat, j: nat, k: nat)
    requires PassInv(g, before, cur, tagged, draws, base, j, k)
    requires j < |tagged| && !tagged[j]
    ensures PassInv(g, before, cur, tagged, draws, base, j + 1, k)
  {
    TaggedRank(tagged, j);
  }

  /** A tagged entity whose draw resolves takes that frame and uses up the draw. */
  lemma PassTake(g: Gif, before: seq<Handle>, cur: seq<Handle>, tagged: seq<bool>, draws: seq<nat>, base: nat, j: nat, k: nat)
    requires PassInv(g, before, cur, tagged, draws, base, j, k)
    requires j < |tagged| && tagged[j] && k < |draws|
    requires LoadKey in g.frames && draws[k] < |g.frames[LoadKey]|
    ensures PassInv(g, before, cur[j := g.frames[LoadKey][draws[k]]], tagged, draws, base, j + 1, k + 1)
  {
    TaggedRank(tagged, j);
    forall i | 0 <= i < j && tagged[i] ensures base + Count(tagged[..i]) < k + 1 {
    }
  }

  /** A tagged entity whose draw does not resolve: the whole pass cannot resolve. */
  lemma PassStuck(g: Gif, before: seq<Handle>, cur: seq<Handle>, tagged: seq<bool>, draws: seq<nat>, base: nat, j: nat, k: nat)
    requires PassInv(g, before, cur, tagged, draws, base, j, k)
    requires j < |tagged| && tagged[j] && k < |draws|
    requires !(LoadKey in g.frames && draws[k] < |g.frames[LoadKey]|)
    ensures !Resolves(g, draws, base, base + Count(tagged))
  {
    TaggedRank(tagged, j);
  }

  /** A pass that reaches the last entity resolved every draw and is `Retexture`. */
  lemma PassDone(g: Gif, before: seq<Handle>, cur: seq<Handle>, tagged: seq<bool>, draws: seq<nat>, base: nat, k: nat)
    requires PassInv(g, before, cur, tagged, draws, base, |tagged|, k)
    ensures Resolves(g, draws, base, base + Count(tagged))
    ensures cur == Retexture(g, before, tagged, draws, base)
  {
    assert tagged[..|tagged|] == tagged;
    forall i | 0 <= i < |cur|
      ensures cur[i] == Retexture(g, before, tagged, draws, base)[i]
    {
      RetextureAt(g, before, tagged, draws, base, i);
    }
  }

  /**
    The inner loop of `gif_load` for one event: each tagged entity in query
    order takes the next draw, starting at `base`. It stops at the first
    draw that `Gif::get` rejects.
   */
  method LoadPass(g: Gif, textures: array<Handle>, tagged: seq<bool>, draws: seq<nat>, base: nat)
    returns (outcome: Outcome)
    requires |tagged| == textures.Length
    requires base + Count(tagged) <= |draws|
    modifies textures
    ensures outcome.Pass? <==> Resolves(g, draws, base, base + Count(tagged))
    ensures outcome.Panic? ==> outcome.error == if LoadKey in g.frames then FrameOutOfRange else MissingKey
    ensures outcome.Pass? ==> textures[..] == Retexture(g, old(textures[..]), tagged, draws, base)
    ensures forall j | 0 <= j < textures.Length && !tagged[j] :: textures[j] == old(textures[j])
  {
    ghost var before := textures[..];
    var k: nat := base;
    PassStart(g, before, tagged, draws, base);
    for j := 0 to textures.Length
      invariant PassInv(g, before, textures[..], tagged, draws, base, j, k)
    {
      ghost var cur := textures[..];
      if tagged[j] {
        TaggedRank(tagged, j);
        var r := g.Get(LoadKey, draws[k]);
        if r.Err? {
          PassStuck(g, before, cur, tagged, draws, base, j, k);
          return Panic(r.error);
        }
        textures[j] := r.value;
        assert textures[..] == cur[j := r.value];
        PassTake(g, before, cur, tagged, draws, base, j, k);
        k := k + 1;
      } else {
        PassSkip(g, before, cur, tagged, draws, base, j, k);
      }
    }
    PassDone(g, before, textures[..], tagged, draws, base, k);
    return Pass;
  }

  /**
    `gif_load`: for each event, each tagged entity in query order takes the
    next draw and gets frame `Gif::get("load", draw)`. It panics exactly
    when one of the draws it uses is not a frame of "load"; untagged
    entities keep their texture whatever happens.
   */
  method GifLoad(g: Gif, textures: array<Handle>, tagged: seq<bool>, events: seq<TriggerEvent>, draws: seq<nat>)
    returns (outcome: Outcome)
    requires |tagged| == textures.Length
    requires |events| * Count(tagged) <= |draws|
    requires forall k | 0 <= k < |draws| :: draws[k] < DrawBound
    modifies textures
    ensures outcome.Pass? <==> Resolves(g, draws, 0, |events| * Count(tagged))
    ensures outcome.Panic? ==> outcome.error == if LoadKey in g.frames then FrameOutOfRange else MissingKey
    ensures outcome.Pass? ==> textures[..] == AfterEvents(g, old(textures[..]), tagged, |events|, draws)
    ensures |events| == 0 ==> outcome == Pass && textures[..] == old(textures[..])
    ensures forall j | 0 <= j < textures.Length && !tagged[j] :: textures[j] == old(textures[j])
  {
    ghost var orig := textures[..];
    var t := Count(tagged);
    var k := 0;
    for e := 0 to |events|
      invariant k == e * t <= |draws|
      invariant Resolves(g, draws, 0, k)
      invariant textures[..] == AfterEvents(g, orig, tagged, e, draws)
      invariant forall j | 0 <= j < textures.Length && !tagged[j] :: textures[j] == orig[j]
    {
      MulStep(e, |events|, t);
      ghost var before := textures[..];
      outcome := LoadPass(g, textures, tagged, draws, k);
      if outcome.Panic? {
        if Resolves(g, draws, 0, |events| * t) {
          ResolvesWithin(g, draws, 0, |events| * t, k, k + t);
        }
        return;
      }
      ResolvesJoin(g, draws, 0, k, k + t);
      RetextureOverwrites(g, before, orig, tagged, draws, k);
      k := k + t;
    }
    return Pass;
  }

  /** Ten or more frames under "load" make every draw of `gen_range(0..10)` resolve. */
  lemma LoadResolves(g: Gif, draws: seq<nat>, lo: nat, hi: nat)
    requires lo <= hi <= |draws|
    requires forall k | 0 <= k < |draws| :: draws[k] < DrawBound
    requires LoadKey in g.frames && |g.frames[LoadKey]| >= DrawBound
    ensures Resolves(g, draws, lo, hi)
  {
  }

  /** One pass shows, on each tagged entity, the frame of "load" its draw names, and leaves the rest alone. */
  lemma RetextureFrames(g: Gif, textures: seq<Handle>, tagged: seq<bool>, draws: seq<nat>, base: nat)
    requires |tagged| == |textures|
    requires base + Count(tagged) <= |draws|
    requires forall k | 0 <= k < |draws| :: draws[k] < DrawBound
    requires LoadKey in g.frames && |g.frames[LoadKey]| >= DrawBound
    ensures Resolves(g, draws, base, base + Count(tagged))
    ensures forall j | 0 <= j < |textures| && !tagged[j] :: Retexture(g, textures, tagged, draws, base)[j] == textures[j]
    ensures forall j | 0 <= j < |textures| && tagged[j] ::
      exists i :: 0 <= i < DrawBound && Retexture(g, textures, tagged, draws, base)[j] == g.frames[LoadKey][i]
  {
    LoadResolves(g, draws, base, base + Count(tagged));
    var r := Retexture(g, textures, tagged, draws, base);
    forall j | 0 <= j < |textures|
      ensures !tagged[j] ==> r[j] == textures[j]
      ensures tagged[j] ==> exists i :: 0 <= i < DrawBound && r[j] == g.frames[LoadKey][i]
    {
      RetextureAt(g, textures, tagged, draws, base, j);
      if tagged[j] {
        var i := draws[base + Count(tagged[..j])];
        assert r[j] == g.frames[LoadKey][i];
      }
    }
  }

  /** After one or more events the textures are those of the last event's pass. */
  lemma AfterEventsLast(g: Gif, textures: seq<Handle>, tagged: seq<bool>, e: nat, draws: seq<nat>) returns (base: nat)
    requires |tagged| == |textures| && e > 0
    requires e * Count(tagged) <= |draws|
    requires Resolves(g, draws, 0, e * Count(tagged))
    ensures base + Count(tagged) <= |draws|
    ensures Resolves(g, draws, base, base + Count(tagged))
    ensures AfterEvents(g, textures, tagged, e, draws) == Retexture(g, textures, tagged, draws, base)
  {
    var t := Count(tagged);
    MulStep(e - 1, e, t);
    base := (e - 1) * t;
    ResolvesWithin(g, draws, 0, e * t, base, base + t);
  }

  /**
    With at least ten frames under "load", `gif_load` never panics, and
    after one or more events every tagged entity shows one of the first ten
    frames of "load" while every untagged entity keeps its texture.
   */
  lemma LoadFromFirstTen(g: Gif, textures: seq<Handle>, tagged: seq<bool>, e: nat, draws: seq<nat>)
    requires |tagged| == |textures|
    requires e * Count(tagged) <= |draws|
    requires forall k | 0 <= k < |draws| :: draws[k] < DrawBound
    requires LoadKey in g.frames && |g.frames[LoadKey]| >= DrawBound
    ensures Resolves(g, draws, 0, e * Count(tagged))
    ensures forall j | 0 <= j < |textures| && !tagged[j] :: AfterEvents(g, textures, tagged, e, draws)[j] == textures[j]
    ensures e > 0 ==> forall j | 0 <= j < |textures| && tagged[j] ::
      exists i :: 0 <= i < DrawBound && AfterEvents(g, textures, tagged, e, draws)[j] == g.frames[LoadKey][i]
  {
    var t := Count(tagged);
    LoadResolves(g, draws, 0, e * t);
    if e > 0 {
      var base := AfterEventsLast(g, textures, tagged, e, draws);
      RetextureFrames(g, textures, tagged, draws, base);
    }
  }

  /**
    Tagged entities need not agree: with two tagged entities and draws 0
    and 1 on a "load" sequence whose first two frames differ, one event
    leaves them showing different frames.
   */
  lemma TaggedNeedNotAgree(g: Gif, a: Handle, b: Handle)
    requires LoadKey in g.frames && |g.frames[LoadKey]| >= 2
    requires g.frames[LoadKey][0] != g.frames[LoadKey][1]
    ensures var r := AfterEvents(g, [a, b], [true, true], 1, [0, 1]);
      r[0] != r[1]
  {
  }
}
