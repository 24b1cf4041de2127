/**
 * `R_SetupAnimatingTextures` of the texture manager (gl/CTextureManager.cpp):
 * the loaded textures named `+0name`, `+1name`, ... (frames) and `+Aname`,
 * `+Bname`, ... (alternate frames) are linked into cycles, each frame pointing
 * at the next, and each side of an animation at the other side's first frame.
 */
module TextureAnimation {
  import opened Wrappers
  import opened CStrings
  import opened BSPRenderDefs
  import opened TextureManager

  /** Animation frames per texture frame (`ANIM_CYCLE`). */
  const ANIM_CYCLE: int := 2

  /** The most frames an animation may have, and the most alternate frames. */
  const MAX_FRAMES: nat := 10

  /** Every slot's name fills the name buffer. */
  predicate NamesFit(ts: seq<Texture>)
  {
    forall i :: 0 <= i < |ts| ==> |ts[i].name| == TEXTURE_NAME_SIZE
  }

  /**
   * No two slots in use have the same name ignoring case: the key of each
   * slot below `inUse` differs from the keys of the slots before it.
   */
  predicate KeysUnique(ts: seq<Texture>, inUse: nat)
    decreases inUse
  {
    inUse == 0 ||
    (KeysUnique(ts, inUse - 1) &&
     (inUse - 1 < |ts| ==> forall j :: 0 <= j < inUse - 1 ==> Key(ts[j].name) != Key(ts[inUse - 1].name)))
  }

  /** Two different slots in use have different keys. */
  lemma {:induction false} KeysDistinct(ts: seq<Texture>, inUse: nat, i: nat, j: nat)
    requires KeysUnique(ts, inUse) && i < inUse && j < inUse && i < |ts| && j < |ts| && i != j
    ensures Key(ts[i].name) != Key(ts[j].name)
    decreases inUse
  {
    if i < inUse - 1 && j < inUse - 1 {
      KeysDistinct(ts, inUse - 1, i, j);
    }
  }

  /** Keys that differ pairwise among the slots in use make `KeysUnique`. */
  lemma {:induction false} KeysUniqueFromPairs(ts: seq<Texture>, inUse: nat)
    requires forall i, j :: 0 <= i < inUse && 0 <= j < inUse && i < |ts| && j < |ts| && Key(ts[i].name) == Key(ts[j].name) ==> i == j
    ensures KeysUnique(ts, inUse)
    decreases inUse
  {
    if inUse > 0 {
      KeysUniqueFromPairs(ts, inUse - 1);
    }
  }

  /** `KeysUnique` depends on the names alone. */
  lemma {:induction false} KeysUniqueSameNames(ts: seq<Texture>, ts2: seq<Texture>, inUse: nat)
    requires |ts2| == |ts| && forall i :: 0 <= i < |ts| ==> ts2[i].name == ts[i].name
    requires KeysUnique(ts, inUse)
    ensures KeysUnique(ts2, inUse)
    decreases inUse
  {
    if inUse > 0 {
      KeysUniqueSameNames(ts, ts2, inUse - 1);
    }
  }

  /** The map makes the names of the slots in use distinct. */
  lemma ValidKeysUnique(m: Manager)
    requires Valid(m)
    ensures NamesFit(m.textures) && KeysUnique(m.textures, m.inUse)
  {
    KeysUniqueFromPairs(m.textures, m.inUse);
  }

  /** A texture whose name starts with `+` is a frame of an animation. */
  predicate IsAnimated(t: Texture)
  {
    At(t.name, 0) == '+'
  }

  /** The name of the animation a frame belongs to: its name after the `+` and the frame character. */
  function Suffix(name: string): string
    requires |name| >= 2
  {
    CStr(name[2..])
  }

  /** What the character after the `+` makes a frame: `0`-`9` a frame, `A`-`J` (either case) an alternate frame. */
  datatype Frame = Primary(k: nat) | Alternate(k: nat) | BadFrame

  function FrameOf(c: char): (f: Frame)
    ensures f.Primary? <==> '0' <= c <= '9'
    ensures f.Alternate? <==> 'A' <= c <= 'J' || 'a' <= c <= 'j'
    ensures !f.BadFrame? ==> f.k < MAX_FRAMES && c != '\0'
  {
    var u := ToUpper(c);
    if '0' <= u <= '9' then Primary(u as int - '0' as int)
    else if 'A' <= u <= 'J' then Alternate(u as int - 'A' as int)
    else BadFrame
  }

  /** Two frame characters of the same frame agree ignoring case. */
  lemma SameFrameSameLower(c: char, d: char)
    requires FrameOf(c) == FrameOf(d) && !FrameOf(c).BadFrame?
    ensures ToLower(c) == ToLower(d)
  {
  }

  /**
   * Two frames of one animation with the same frame character, ignoring
   * case, have the same name ignoring case; so, among loaded textures, each
   * frame of an animation is one texture.
   */
  lemma SameFrameSameKey(n1: string, n2: string)
    requires |n1| == TEXTURE_NAME_SIZE && |n2| == TEXTURE_NAME_SIZE
    requires At(n1, 0) == '+' && At(n2, 0) == '+' && Suffix(n1) == Suffix(n2)
    requires FrameOf(At(n1, 1)) == FrameOf(At(n2, 1)) && !FrameOf(At(n1, 1)).BadFrame?
    ensures Key(n1) == Key(n2)
  {
    SplitName(n1);
    SplitName(n2);
    SameFrameSameLower(n1[1], n2[1]);
    LowerConcat(n1[..2], Suffix(n1));
    LowerConcat(n2[..2], Suffix(n2));
  }

  /** The C string of a name whose first two characters are not NUL. */
  lemma SplitName(n: string)
    requires |n| >= 2 && n[0] != '\0' && n[1] != '\0'
    ensures CStr(n) == n[..2] + Suffix(n)
  {
    assert n[1..][1..] == n[2..];
  }

  lemma LowerConcat(a: string, b: string)
    ensures Lower(a + b) == Lower(a) + Lower(b)
  {
    assert forall i :: 0 <= i < |a + b| ==> Lower(a + b)[i] == (Lower(a) + Lower(b))[i];
  }

  /**
   * The frames found so far: `anims[k]` is the slot of frame `k`, `max` one
   * more than the highest frame seen; `alts` and `altmax` the same for the
   * alternate frames.
   */
  datatype Group = Group(anims: seq<Option<nat>>, max: nat, alts: seq<Option<nat>>, altmax: nat)

  const NoFrames: seq<Option<nat>> := [None, None, None, None, None, None, None, None, None, None]

  /** No frames found. */
  const EmptyGroup: Group := Group(NoFrames, 0, NoFrames, 0)

  lemma EmptyGroupWithin(bound: nat)
    ensures GroupWithin(EmptyGroup, bound)
  {
    forall k | 0 <= k < MAX_FRAMES
      ensures NoFrames[k] == None
    {
    }
  }

  /** The frames are ten entries, the counts at most ten, and every slot is below `bound`. */
  predicate GroupWithin(g: Group, bound: nat)
  {
    && |g.anims| == MAX_FRAMES && |g.alts| == MAX_FRAMES && g.max <= MAX_FRAMES && g.altmax <= MAX_FRAMES
    && (forall k :: 0 <= k < MAX_FRAMES && g.anims[k].Some? ==> g.anims[k].value < bound)
    && (forall k :: 0 <= k < MAX_FRAMES && g.alts[k].Some? ==> g.alts[k].value < bound)
  }

  /** The slot a group holds for a frame. */
  function SlotOf(g: Group, f: Frame): Option<nat>
    requires |g.anims| == MAX_FRAMES && |g.alts| == MAX_FRAMES
    requires !f.BadFrame? && f.k < MAX_FRAMES
  {
    if f.Primary? then g.anims[f.k] else g.alts[f.k]
  }

  /** The number of frames a group counts on the side of a frame. */
  function CountOf(g: Group, f: Frame): nat
    requires !f.BadFrame?
  {
    if f.Primary? then g.max else g.altmax
  }

  /** Recording that `slot` is frame `f`: it replaces any slot recorded for that frame before. */
  function AddFrame(g: Group, f: Frame, slot: nat): (r: Group)
    requires |g.anims| == MAX_FRAMES && |g.alts| == MAX_FRAMES && g.max <= MAX_FRAMES && g.altmax <= MAX_FRAMES
    requires !f.BadFrame? && f.k < MAX_FRAMES
    ensures |r.anims| == MAX_FRAMES && |r.alts| == MAX_FRAMES && r.max <= MAX_FRAMES && r.altmax <= MAX_FRAMES
    ensures GroupWithin(g, slot + 1) ==> GroupWithin(r, slot + 1)
    ensures SlotOf(r, f) == Some(slot) && CountOf(r, f) > f.k
    ensures forall f': Frame :: !f'.BadFrame? && f'.k < MAX_FRAMES && f' != f ==> SlotOf(r, f') == SlotOf(g, f')
    ensures forall f': Frame :: !f'.BadFrame? ==> CountOf(r, f') >= CountOf(g, f')
  {
    match f
    case Primary(k) => g.(anims := g.anims[k := Some(slot)], max := if k + 1 > g.max then k + 1 else g.max)
    case Alternate(k) => g.(alts := g.alts[k := Some(slot)], altmax := if k + 1 > g.altmax then k + 1 else g.altmax)
  }

  /** Slot `j` is named as a frame of the animation slot `idx` is a frame of. */
  predicate SameAnimation(ts: seq<Texture>, idx: nat, j: nat)
    requires NamesFit(ts) && idx < |ts| && j < |ts|
  {
    IsAnimated(ts[j]) && Suffix(ts[j].name) == Suffix(ts[idx].name)
  }

  /** Slot `j` claims to be a frame of the animation of slot `idx` but has a bad frame character. */
  predicate BadFrameOf(ts: seq<Texture>, idx: nat, j: nat)
    requires NamesFit(ts) && idx < |ts| && j < |ts|
  {
    SameAnimation(ts, idx, j) && FrameOf(At(ts[j].name, 1)).BadFrame?
  }

  /**
   * The frames of the animation the frame in slot `idx` belongs to, found
   * among the slots from `i` on: each frame of that animation is recorded
   * under its frame character, a later one replacing an earlier one; a frame
   * character that is neither makes the whole setup fail.
   */
  function Collect(ts: seq<Texture>, inUse: nat, idx: nat, g: Group, i: nat): (r: Option<Group>)
    requires inUse <= |ts| && NamesFit(ts) && idx < i <= inUse && GroupWithin(g, i)
    ensures r.Some? ==> GroupWithin(r.value, inUse)
    ensures r.Some? ==> forall f: Frame :: !f.BadFrame? ==> CountOf(r.value, f) >= CountOf(g, f)
    decreases inUse - i
  {
    if i == inUse then Some(g)
    else if !SameAnimation(ts, idx, i) then Collect(ts, inUse, idx, g, i + 1)
    else
      var f := FrameOf(At(ts[i].name, 1));
      if f.BadFrame? then None
      else Collect(ts, inUse, idx, AddFrame(g, f, i), i + 1)
  }

  /** Among distinct names, another slot of the same animation is another frame. */
  lemma OtherSlotOtherFrame(ts: seq<Texture>, inUse: nat, idx: nat, i: nat)
    requires inUse <= |ts| && NamesFit(ts) && idx < i < inUse && KeysUnique(ts, inUse)
    requires IsAnimated(ts[idx]) && SameAnimation(ts, idx, i)
    ensures FrameOf(At(ts[i].name, 1)) != FrameOf(At(ts[idx].name, 1)) || FrameOf(At(ts[i].name, 1)).BadFrame?
  {
    if FrameOf(At(ts[i].name, 1)) == FrameOf(At(ts[idx].name, 1)) && !FrameOf(At(ts[i].name, 1)).BadFrame? {
      SameFrameSameKey(ts[i].name, ts[idx].name);
      KeysDistinct(ts, inUse, i, idx);
    }
  }

  /** Collecting fails exactly when a slot named as a frame of the animation has a bad frame character. */
  lemma {:induction false} CollectFailsIff(ts: seq<Texture>, inUse: nat, idx: nat, g: Group, i: nat)
    requires inUse <= |ts| && NamesFit(ts) && idx < i <= inUse && GroupWithin(g, i)
    ensures Collect(ts, inUse, idx, g, i).None? <==> exists j :: i <= j < inUse && BadFrameOf(ts, idx, j)
    decreases inUse - i
  {
    if i < inUse {
      if !SameAnimation(ts, idx, i) {
        CollectFailsIff(ts, inUse, idx, g, i + 1);
      } else if FrameOf(At(ts[i].name, 1)).BadFrame? {
        assert BadFrameOf(ts, idx, i);
      } else {
        CollectFailsIff(ts, inUse, idx, AddFrame(g, FrameOf(At(ts[i].name, 1)), i), i + 1);
      }
    }
  }

  /**
   * A slot of the animation recorded under its frame stays recorded while the
   * later slots are collected, when names are distinct.
   */
  lemma {:induction false} CollectKeeps(ts: seq<Texture>, inUse: nat, idx: nat, g: Group, i: nat, r: Group, s: nat)
    requires inUse <= |ts| && NamesFit(ts) && idx < i <= inUse && GroupWithin(g, i)
    requires KeysUnique(ts, inUse) && s < i && SameAnimation(ts, idx, s) && !FrameOf(At(ts[s].name, 1)).BadFrame?
    requires SlotOf(g, FrameOf(At(ts[s].name, 1))) == Some(s)
    requires Collect(ts, inUse, idx, g, i) == Some(r)
    ensures |r.anims| == MAX_FRAMES && |r.alts| == MAX_FRAMES
    ensures SlotOf(r, FrameOf(At(ts[s].name, 1))) == Some(s)
    decreases inUse - i
  {
    if i < inUse {
      var next := i + 1;
      CollectStep(ts, inUse, idx, g, i, next);
      if SameAnimation(ts, idx, i) {
        var f := FrameOf(At(ts[i].name, 1));
        OtherSlotOtherFrame(ts, inUse, s, i);
        var g1 := AddFrame(g, f, i);
        CollectKeeps(ts, inUse, idx, g1, next, r, s);
      } else {
        CollectKeeps(ts, inUse, idx, g, next, r, s);
      }
    }
  }

  /**
   * Each later slot of the animation with a good frame character ends up
   * recorded under its frame, below the count of its side, when names are
   * distinct.
   */
  lemma {:induction false} CollectHas(ts: seq<Texture>, inUse: nat, idx: nat, g: Group, i: nat, s: nat)
    requires inUse <= |ts| && NamesFit(ts) && idx < i <= s < inUse && GroupWithin(g, i)
    requires KeysUnique(ts, inUse) && SameAnimation(ts, idx, s) && !FrameOf(At(ts[s].name, 1)).BadFrame?
    ensures Collect(ts, inUse, idx, g, i).Some? ==>
      var r := Collect(ts, inUse, idx, g, i).value;
      |r.anims| == MAX_FRAMES && |r.alts| == MAX_FRAMES &&
      SlotOf(r, FrameOf(At(ts[s].name, 1))) == Some(s) && CountOf(r, FrameOf(At(ts[s].name, 1))) > FrameOf(At(ts[s].name, 1)).k
    decreases inUse - i
  {
    var next := i + 1;
    CollectStep(ts, inUse, idx, g, i, next);
    if Collect(ts, inUse, idx, g, i).Some? {
      var r := Collect(ts, inUse, idx, g, i).value;
      if i < s {
        if SameAnimation(ts, idx, i) {
          CollectHas(ts, inUse, idx, AddFrame(g, FrameOf(At(ts[i].name, 1)), i), next, s);
        } else {
          CollectHas(ts, inUse, idx, g, next, s);
        }
      } else {
        var g1 := AddFrame(g, FrameOf(At(ts[s].name, 1)), s);
        CollectKeeps(ts, inUse, idx, g1, next, r, s);
      }
    }
  }

  /** One step of `Collect`, at slot `i` below `inUse`. */
  lemma CollectStep(ts: seq<Texture>, inUse: nat, idx: nat, g: Group, i: nat, next: nat)
    requires inUse <= |ts| && NamesFit(ts) && idx < i < inUse && GroupWithin(g, i) && next == i + 1
    ensures !SameAnimation(ts, idx, i) ==> Collect(ts, inUse, idx, g, i) == Collect(ts, inUse, idx, g, next)
    ensures SameAnimation(ts, idx, i) && FrameOf(At(ts[i].name, 1)).BadFrame? ==> Collect(ts, inUse, idx, g, i).None?
    ensures SameAnimation(ts, idx, i) && !FrameOf(At(ts[i].name, 1)).BadFrame? ==>
      Collect(ts, inUse, idx, g, i) == Collect(ts, inUse, idx, AddFrame(g, FrameOf(At(ts[i].name, 1)), i), next)
  {
  }

  /** The frames from `j` up to `count` are all present. */
  predicate AllPresent(frames: seq<Option<nat>>, j: nat, count: nat)
    requires count <= |frames|
  {
    forall k :: j <= k < count ==> frames[k].Some?
  }

  /** Every frame present names a slot of `ts`. */
  predicate FramesIn(frames: seq<Option<nat>>, n: nat)
  {
    forall k :: 0 <= k < |frames| && frames[k].Some? ==> frames[k].value < n
  }

  /** No frame from `j` up to `count` is slot `i`. */
  predicate Untouched(frames: seq<Option<nat>>, j: nat, count: nat, i: nat)
    requires count <= |frames|
  {
    forall k :: j <= k < count ==> frames[k] != Some(i)
  }

  /** Frame `j` of `count`, texture `t`, linked into its animation. */
  function LinkFrame(t: Texture, frames: seq<Option<nat>>, count: nat, alt: Option<Option<nat>>, j: nat): Texture
    requires j < count <= |frames|
  {
    t.(animTotal := count * ANIM_CYCLE, animMin := j * ANIM_CYCLE, animMax := (j + 1) * ANIM_CYCLE,
       animNext := frames[(j + 1) % count],
       alternate := if alt.Some? then alt.value else t.alternate)
  }

  /**
   * Linking frames `j` to `count - 1` of an animation: each frame learns the
   * animation's length and its own place in it (in units of `ANIM_CYCLE`),
   * the next frame, and, when `alt` says so, the other animation. A missing
   * frame stops the setup; the frames linked before it stay linked.
   */
  function Link(ts: seq<Texture>, frames: seq<Option<nat>>, count: nat, alt: Option<Option<nat>>, j: nat): (r: (bool, seq<Texture>))
    requires count <= |frames| && j <= count && FramesIn(frames, |ts|)
    ensures |r.1| == |ts|
    ensures r.0 <==> AllPresent(frames, j, count)
    ensures forall i :: 0 <= i < |ts| ==> r.1[i].name == ts[i].name
    ensures forall i :: 0 <= i < |ts| && Untouched(frames, j, count, i) ==> r.1[i] == ts[i]
    decreases count - j
  {
    if j == count then (true, ts)
    else match frames[j]
      case None => (false, ts)
      case Some(s) => Link(ts[s := LinkFrame(ts[s], frames, count, alt, j)], frames, count, alt, j + 1)
  }

  /**
   * A successful link of a whole animation gives each of its frames a next
   * frame and takes the next frame from no slot.
   */
  lemma {:induction false} LinkGivesNext(ts: seq<Texture>, frames: seq<Option<nat>>, count: nat, alt: Option<Option<nat>>, j: nat)
    requires count <= |frames| && j <= count && FramesIn(frames, |ts|) && AllPresent(frames, 0, count)
    ensures forall i :: 0 <= i < |ts| && ts[i].animNext.Some? ==> Link(ts, frames, count, alt, j).1[i].animNext.Some?
    ensures forall k :: j <= k < count ==> Link(ts, frames, count, alt, j).1[frames[k].value].animNext.Some?
    decreases count - j
  {
    if j < count {
      var s := frames[j].value;
      var ts1 := ts[s := LinkFrame(ts[s], frames, count, alt, j)];
      assert ts1[s].animNext.Some? by {
        assert 0 <= (j + 1) % count < count;
      }
      LinkGivesNext(ts1, frames, count, alt, j + 1);
      assert Link(ts, frames, count, alt, j) == Link(ts1, frames, count, alt, j + 1);
      if Untouched(frames, j + 1, count, s) {
        assert Link(ts1, frames, count, alt, j + 1).1[s] == ts1[s];
      }
    }
  }

  /** No slot is two frames. */
  predicate Distinct(frames: seq<Option<nat>>, count: nat)
    requires count <= |frames|
  {
    forall a, b :: 0 <= a < count && 0 <= b < count && frames[a].Some? && frames[a] == frames[b] ==> a == b
  }

  /** What linking makes of frame `k`, which was `t0`, in `t`. */
  predicate FrameLinked(t0: Texture, t: Texture, frames: seq<Option<nat>>, count: nat, alt: Option<Option<nat>>, k: nat)
    requires k < count <= |frames|
  {
    && t.name == t0.name && t.width == t0.width && t.height == t0.height && t.glTexture == t0.glTexture
    && t.animTotal == ANIM_CYCLE * count && t.animMin == ANIM_CYCLE * k && t.animMax == t.animMin + ANIM_CYCLE
    && t.animNext == frames[if k + 1 == count then 0 else k + 1]
    && t.alternate == (if alt.Some? then alt.value else t0.alternate)
  }

  /** After a successful link of distinct frames, each frame holds its place, its length and its successor. */
  lemma {:induction false} LinkedFrames(ts: seq<Texture>, frames: seq<Option<nat>>, count: nat, alt: Option<Option<nat>>, j: nat)
    requires count <= |frames| && j <= count && FramesIn(frames, |ts|) && Distinct(frames, count)
    requires AllPresent(frames, j, count)
    ensures forall k :: j <= k < count ==>
      FrameLinked(ts[frames[k].value], Link(ts, frames, count, alt, j).1[frames[k].value], frames, count, alt, k)
    decreases count - j
  {
    if j < count {
      var s := frames[j].value;
      var t := LinkFrame(ts[s], frames, count, alt, j);
      var ts1 := ts[s := t];
      var next := j + 1;
      assert Link(ts, frames, count, alt, j) == Link(ts1, frames, count, alt, next);
      LinkFrameLinks(ts[s], frames, count, alt, j);
      LinkedFrames(ts1, frames, count, alt, next);
      var out := Link(ts1, frames, count, alt, next).1;
      assert Untouched(frames, next, count, s);
      LinkedFramesStep(ts, frames, count, alt, j, s, ts1, out);
    }
  }

  /** Frame `j`, linked first, and the frames after it, linked afterwards, all end up linked. */
  lemma LinkedFramesStep(ts: seq<Texture>, frames: seq<Option<nat>>, count: nat, alt: Option<Option<nat>>, j: nat,
                         s: nat, ts1: seq<Texture>, out: seq<Texture>)
    requires j < count <= |frames| && FramesIn(frames, |ts|) && Distinct(frames, count)
    requires AllPresent(frames, j, count) && frames[j] == Some(s) && s < |ts|
    requires ts1 == ts[s := LinkFrame(ts[s], frames, count, alt, j)]
    requires |out| == |ts| && out[s] == ts1[s]
    requires FrameLinked(ts[s], ts1[s], frames, count, alt, j)
    requires forall k :: j < k < count ==> FrameLinked(ts1[frames[k].value], out[frames[k].value], frames, count, alt, k)
    ensures forall k :: j <= k < count ==> FrameLinked(ts[frames[k].value], out[frames[k].value], frames, count, alt, k)
  {
    forall k | j < k < count
      ensures ts1[frames[k].value] == ts[frames[k].value]
    {
    }
  }

  lemma LinkFrameLinks(t: Texture, frames: seq<Option<nat>>, count: nat, alt: Option<Option<nat>>, j: nat)
    requires j < count <= |frames|
    ensures FrameLinked(t, LinkFrame(t, frames, count, alt, j), frames, count, alt, j)
  {
    if j + 1 < count {
      assert (j + 1) % count == j + 1;
    } else {
      assert (j + 1) % count == 0;
    }
  }

  /** The slot reached from `s` by following the next frame `n` times; none when a frame has no next. */
  function Follow(ts: seq<Texture>, s: nat, n: nat): Option<nat>
    decreases n
  {
    if n == 0 then Some(s)
    else if s < |ts| && ts[s].animNext.Some? then Follow(ts, ts[s].animNext.value, n - 1)
    else None
  }

  /** Each of the `count` frames is a slot of `ts` whose next frame is the following frame, the last one's the first. */
  predicate Cycle(ts: seq<Texture>, frames: seq<Option<nat>>, count: nat)
    requires count <= |frames|
  {
    forall k :: 0 <= k < count ==>
      frames[k].Some? && frames[k].value < |ts| && ts[frames[k].value].animNext == frames[if k + 1 == count then 0 else k + 1]
  }

  /** In a cycle, following the next frame `n` times from frame `k` reaches frame `(k + n) % count`. */
  lemma {:induction false} FollowCycle(ts: seq<Texture>, frames: seq<Option<nat>>, count: nat, k: nat, n: nat)
    requires count <= |frames| && Cycle(ts, frames, count) && k < count
    ensures Follow(ts, frames[k].value, n) == frames[(k + n) % count]
    decreases n
  {
    if n == 0 {
      ModUnique(k, count, 0, k);
    } else {
      var k' := if k + 1 == count then 0 else k + 1;
      assert Follow(ts, frames[k].value, n) == Follow(ts, frames[k'].value, n - 1);
      FollowCycle(ts, frames, count, k', n - 1);
      if k + 1 == count {
        var x := n - 1;
        var q, r := x / count, x % count;
        assert x + count == (q + 1) * count + r;
        ModUnique(x + count, count, q + 1, r);
      }
    }
  }

  /**
   * After a successful link of distinct frames, following the next frame
   * from frame `k` `n` times reaches frame `(k + n) % count`: the frames form
   * one cycle of length `count`.
   */
  lemma AnimationCycles(ts: seq<Texture>, frames: seq<Option<nat>>, count: nat, alt: Option<Option<nat>>, k: nat, n: nat)
    requires count <= |frames| && FramesIn(frames, |ts|) && Distinct(frames, count)
    requires Link(ts, frames, count, alt, 0).0 && k < count
    ensures Follow(Link(ts, frames, count, alt, 0).1, frames[k].value, n) == frames[(k + n) % count]
  {
    var ts' := Link(ts, frames, count, alt, 0).1;
    LinkedFrames(ts, frames, count, alt, 0);
    assert Cycle(ts', frames, count) by {
      forall k | 0 <= k < count
        ensures ts'[frames[k].value].animNext == frames[if k + 1 == count then 0 else k + 1]
      {
        assert FrameLinked(ts[frames[k].value], ts'[frames[k].value], frames, count, alt, k);
      }
    }
    FollowCycle(ts', frames, count, k, n);
  }

  /** The remainder is the only `r` in `[0, c)` with `n == q * c + r`. */
  lemma ModUnique(n: int, c: int, q: int, r: int)
    requires c > 0 && n == q * c + r && 0 <= r < c
    ensures n % c == r
  {
    var q', r' := n / c, n % c;
    assert n == q' * c + r';
    var d := q - q';
    assert d * c == r' - r by {
      assert d * c == q * c - q' * c;
    }
    if d > 0 {
      assert d * c >= c by { MulAtLeast(d, c); }
    } else if d < 0 {
      assert (-d) * c >= c by { MulAtLeast(-d, c); }
    }
  }

  lemma MulAtLeast(a: int, c: int)
    requires a >= 1 && c > 0
    ensures a * c >= c
  {
  }

  /** What linking one side tells its frames about the other side: its first frame, when it has frames. */
  function OtherSide(frames: seq<Option<nat>>, count: nat): (r: Option<Option<nat>>)
    requires count <= |frames|
    ensures r.Some? <==> count > 0
    ensures r.Some? ==> r.value == frames[0]
  {
    if count > 0 then Some(frames[0]) else None
  }

  /**
   * Linking the frames of a group, then its alternate frames, each side
   * pointing at the other side's first frame when the other side has frames.
   * The alternate frames are not linked when linking the frames fails.
   */
  function LinkBoth(ts: seq<Texture>, g: Group, bound: nat): (r: (bool, seq<Texture>))
    requires GroupWithin(g, bound) && bound <= |ts|
    ensures |r.1| == |ts|
    ensures forall i :: 0 <= i < |ts| ==> r.1[i].name == ts[i].name
    ensures forall i :: bound <= i < |ts| ==> r.1[i] == ts[i]
    ensures r.0 <==> AllPresent(g.anims, 0, g.max) && AllPresent(g.alts, 0, g.altmax)
  {
    var p := Link(ts, g.anims, g.max, OtherSide(g.alts, g.altmax), 0);
    assert forall i :: bound <= i < |ts| ==> Untouched(g.anims, 0, g.max, i);
    if !p.0 then (false, p.1)
    else
      assert forall i :: bound <= i < |ts| ==> Untouched(g.alts, 0, g.altmax, i);
      Link(p.1, g.alts, g.altmax, OtherSide(g.anims, g.max), 0)
  }

  /**
   * A successful `LinkBoth` gives every frame of the group, on both sides, a
   * next frame, and takes the next frame from no slot.
   */
  lemma LinkBothGivesNext(ts: seq<Texture>, g: Group, bound: nat)
    requires GroupWithin(g, bound) && bound <= |ts|
    requires AllPresent(g.anims, 0, g.max) && AllPresent(g.alts, 0, g.altmax)
    ensures forall i :: 0 <= i < |ts| && ts[i].animNext.Some? ==> LinkBoth(ts, g, bound).1[i].animNext.Some?
    ensures forall k :: 0 <= k < g.max ==> LinkBoth(ts, g, bound).1[g.anims[k].value].animNext.Some?
    ensures forall k :: 0 <= k < g.altmax ==> LinkBoth(ts, g, bound).1[g.alts[k].value].animNext.Some?
  {
    var altA := OtherSide(g.alts, g.altmax);
    var altB := OtherSide(g.anims, g.max);
    var ts1 := Link(ts, g.anims, g.max, altA, 0).1;
    LinkGivesNext(ts, g.anims, g.max, altA, 0);
    LinkGivesNext(ts1, g.alts, g.altmax, altB, 0);
  }

  /**
   * The frames of the animation slot `idx` starts, collected from the slots
   * after it; none when a frame character is bad.
   */
  function StartGroup(ts: seq<Texture>, inUse: nat, idx: nat): (r: Option<Group>)
    requires inUse <= |ts| && NamesFit(ts) && idx < inUse
    ensures r.Some? ==> GroupWithin(r.value, inUse) && GroupWithin(r.value, |ts|)
    ensures FrameOf(At(ts[idx].name, 1)).BadFrame? ==> r.None?
  {
    var f := FrameOf(At(ts[idx].name, 1));
    if f.BadFrame? then None
    else
      EmptyGroupWithin(idx + 1);
      Collect(ts, inUse, idx, AddFrame(EmptyGroup, f, idx), idx + 1)
  }

  /**
   * Sequencing the animation slot `idx` starts: collect its frames, then
   * link them.
   */
  function SequenceGroup(ts: seq<Texture>, inUse: nat, idx: nat): (r: (bool, seq<Texture>))
    requires inUse <= |ts| && NamesFit(ts) && idx < inUse
    ensures |r.1| == |ts| && NamesFit(r.1)
    ensures forall i :: 0 <= i < |ts| ==> r.1[i].name == ts[i].name
    ensures forall i :: inUse <= i < |ts| ==> r.1[i] == ts[i]
    ensures FrameOf(At(ts[idx].name, 1)).BadFrame? ==> !r.0
  {
    match StartGroup(ts, inUse, idx)
    case None => (false, ts)
    case Some(g) => LinkBoth(ts, g, inUse)
  }

  /**
   * Sequencing a slot that starts an animation, when names are distinct and
   * it succeeds, gives that slot a next frame and takes the next frame from
   * no slot.
   */
  lemma SequenceGroupLinksStart(ts: seq<Texture>, inUse: nat, idx: nat)
    requires inUse <= |ts| && NamesFit(ts) && idx < inUse && KeysUnique(ts, inUse) && IsAnimated(ts[idx])
    ensures SequenceGroup(ts, inUse, idx).0 ==> SequenceGroup(ts, inUse, idx).1[idx].animNext.Some?
    ensures SequenceGroup(ts, inUse, idx).0 ==>
      forall i :: 0 <= i < |ts| && ts[i].animNext.Some? ==> SequenceGroup(ts, inUse, idx).1[i].animNext.Some?
  {
    if SequenceGroup(ts, inUse, idx).0 {
      var g := StartGroup(ts, inUse, idx).value;
      assert SequenceGroup(ts, inUse, idx) == LinkBoth(ts, g, inUse);
      GroupHoldsStart(ts, inUse, idx);
      LinkBothGivesNext(ts, g, inUse);
    }
  }

  /** A collected group, with distinct names, holds its starting slot under its frame, below the count of its side. */
  lemma GroupHoldsStart(ts: seq<Texture>, inUse: nat, idx: nat)
    requires inUse <= |ts| && NamesFit(ts) && idx < inUse && KeysUnique(ts, inUse) && IsAnimated(ts[idx])
    requires StartGroup(ts, inUse, idx).Some?
    ensures var g, f := StartGroup(ts, inUse, idx).value, FrameOf(At(ts[idx].name, 1));
      && (f.Primary? ==> f.k < g.max && g.anims[f.k] == Some(idx))
      && (f.Alternate? ==> f.k < g.altmax && g.alts[f.k] == Some(idx))
      && !f.BadFrame?
  {
    var f := FrameOf(At(ts[idx].name, 1));
    EmptyGroupWithin(idx + 1);
    var g0 := AddFrame(EmptyGroup, f, idx);
    assert StartGroup(ts, inUse, idx) == Collect(ts, inUse, idx, g0, idx + 1);
    var g := StartGroup(ts, inUse, idx).value;
    CollectKeeps(ts, inUse, idx, g0, idx + 1, g, idx);
  }

  /** Slot `j` is no frame of the group, on either side. */
  predicate Avoids(g: Group, j: nat)
    requires |g.anims| == MAX_FRAMES && |g.alts| == MAX_FRAMES
  {
    forall k :: 0 <= k < MAX_FRAMES ==> g.anims[k] != Some(j) && g.alts[k] != Some(j)
  }

  /**
   * Collecting records no slot it has passed, no slot of another animation
   * and no slot with a bad frame character.
   */
  lemma {:induction false} CollectAvoids(ts: seq<Texture>, inUse: nat, idx: nat, g: Group, i: nat, j: nat)
    requires inUse <= |ts| && NamesFit(ts) && idx < i <= inUse && GroupWithin(g, i) && j < |ts|
    requires Avoids(g, j)
    requires j < i || !SameAnimation(ts, idx, j) || FrameOf(At(ts[j].name, 1)).BadFrame?
    ensures Collect(ts, inUse, idx, g, i).Some? ==> Avoids(Collect(ts, inUse, idx, g, i).value, j)
    decreases inUse - i
  {
    if i < inUse {
      CollectStep(ts, inUse, idx, g, i, i + 1);
      if SameAnimation(ts, idx, i) && !FrameOf(At(ts[i].name, 1)).BadFrame? {
        CollectAvoids(ts, inUse, idx, AddFrame(g, FrameOf(At(ts[i].name, 1)), i), i + 1, j);
      } else if !SameAnimation(ts, idx, i) {
        CollectAvoids(ts, inUse, idx, g, i + 1, j);
      }
    }
  }

  /** No slot is two frames of the group, on one side or across the two. */
  predicate Separate(g: Group)
    requires |g.anims| == MAX_FRAMES && |g.alts| == MAX_FRAMES
  {
    && Distinct(g.anims, MAX_FRAMES) && Distinct(g.alts, MAX_FRAMES)
    && forall a, b :: 0 <= a < MAX_FRAMES && 0 <= b < MAX_FRAMES && g.anims[a].Some? ==> g.anims[a] != g.alts[b]
  }

  /** Collecting keeps the slots of the group apart: each slot it passes is recorded at most once. */
  lemma {:induction false} CollectSeparate(ts: seq<Texture>, inUse: nat, idx: nat, g: Group, i: nat)
    requires inUse <= |ts| && NamesFit(ts) && idx < i <= inUse && GroupWithin(g, i) && Separate(g)
    ensures Collect(ts, inUse, idx, g, i).Some? ==> Separate(Collect(ts, inUse, idx, g, i).value)
    decreases inUse - i
  {
    if i < inUse {
      CollectStep(ts, inUse, idx, g, i, i + 1);
      if SameAnimation(ts, idx, i) && !FrameOf(At(ts[i].name, 1)).BadFrame? {
        var g1 := AddFrame(g, FrameOf(At(ts[i].name, 1)), i);
        assert Avoids(g, i);
        assert Separate(g1);
        CollectSeparate(ts, inUse, idx, g1, i + 1);
      } else if !SameAnimation(ts, idx, i) {
        CollectSeparate(ts, inUse, idx, g, i + 1);
      }
    }
  }

  /** The group an animation's first slot starts holds each slot at most once. */
  lemma StartGroupSeparate(ts: seq<Texture>, inUse: nat, idx: nat)
    requires inUse <= |ts| && NamesFit(ts) && idx < inUse && StartGroup(ts, inUse, idx).Some?
    ensures Separate(StartGroup(ts, inUse, idx).value)
  {
    var f := FrameOf(At(ts[idx].name, 1));
    EmptyGroupWithin(idx + 1);
    var g0 := AddFrame(EmptyGroup, f, idx);
    assert StartGroup(ts, inUse, idx) == Collect(ts, inUse, idx, g0, idx + 1);
    FirstFrameGroup(f, idx, idx);
    CollectSeparate(ts, inUse, idx, g0, idx + 1);
  }

  /**
   * The group an animation's first slot starts holds no slot before the
   * start, of another animation or with a bad frame character.
   */
  lemma StartGroupAvoids(ts: seq<Texture>, inUse: nat, idx: nat, j: nat)
    requires inUse <= |ts| && NamesFit(ts) && idx < inUse && j < |ts| && StartGroup(ts, inUse, idx).Some?
    requires (j != idx && (j < idx || !SameAnimation(ts, idx, j))) || FrameOf(At(ts[j].name, 1)).BadFrame?
    ensures Avoids(StartGroup(ts, inUse, idx).value, j)
  {
    var f := FrameOf(At(ts[idx].name, 1));
    EmptyGroupWithin(idx + 1);
    var g0 := AddFrame(EmptyGroup, f, idx);
    assert StartGroup(ts, inUse, idx) == Collect(ts, inUse, idx, g0, idx + 1);
    FirstFrameGroup(f, idx, j);
    CollectAvoids(ts, inUse, idx, g0, idx + 1, j);
  }

  /** The group of one frame holds that slot once and no other slot. */
  lemma FirstFrameGroup(f: Frame, idx: nat, j: nat)
    requires !f.BadFrame? && f.k < MAX_FRAMES
    ensures Separate(AddFrame(EmptyGroup, f, idx))
    ensures j != idx ==> Avoids(AddFrame(EmptyGroup, f, idx), j)
  {
    var g0 := AddFrame(EmptyGroup, f, idx);
    assert forall k :: 0 <= k < MAX_FRAMES ==> NoFrames[k] == None;
    assert forall k :: 0 <= k < MAX_FRAMES && k != f.k ==> g0.anims[k] == None && g0.alts[k] == None;
  }

  /** Linking both sides leaves every slot the group avoids as it was. */
  lemma LinkBothKeeps(ts: seq<Texture>, g: Group, bound: nat, j: nat)
    requires GroupWithin(g, bound) && bound <= |ts| && j < |ts| && Avoids(g, j)
    ensures LinkBoth(ts, g, bound).1[j] == ts[j]
  {
    assert Untouched(g.anims, 0, g.max, j);
    assert Untouched(g.alts, 0, g.altmax, j);
  }

  /**
   * Sequencing one animation, whether or not it succeeds, leaves as they were
   * the slots before its start, the slots of other animations and the slots
   * with a bad frame character.
   */
  lemma SequenceGroupKeeps(ts: seq<Texture>, inUse: nat, idx: nat, j: nat)
    requires inUse <= |ts| && NamesFit(ts) && idx < inUse && j < |ts|
    requires (j != idx && (j < idx || !SameAnimation(ts, idx, j))) || FrameOf(At(ts[j].name, 1)).BadFrame?
    ensures SequenceGroup(ts, inUse, idx).1[j] == ts[j]
  {
    if StartGroup(ts, inUse, idx).Some? {
      StartGroupAvoids(ts, inUse, idx, j);
      LinkBothKeeps(ts, StartGroup(ts, inUse, idx).value, inUse, j);
    }
  }

  /**
   * Every frame of both sides of `g` is present and, in `out`, linked from what
   * it was in `ts`: its place, the length of its side, its successor and the
   * other side's first frame.
   */
  predicate BothLinked(ts: seq<Texture>, out: seq<Texture>, g: Group)
    requires GroupWithin(g, |ts|) && |out| == |ts|
  {
    && (forall k :: 0 <= k < g.max ==>
          g.anims[k].Some? &&
          FrameLinked(ts[g.anims[k].value], out[g.anims[k].value], g.anims, g.max, OtherSide(g.alts, g.altmax), k))
    && (forall k :: 0 <= k < g.altmax ==>
          g.alts[k].Some? &&
          FrameLinked(ts[g.alts[k].value], out[g.alts[k].value], g.alts, g.altmax, OtherSide(g.anims, g.max), k))
  }

  /** A successful `LinkBoth` of a group whose slots are apart links every frame of both sides. */
  lemma LinkBothLinks(ts: seq<Texture>, g: Group, bound: nat)
    requires GroupWithin(g, bound) && bound <= |ts| && Separate(g) && LinkBoth(ts, g, bound).0
    ensures GroupWithin(g, |ts|) && BothLinked(ts, LinkBoth(ts, g, bound).1, g)
  {
    var altA := OtherSide(g.alts, g.altmax);
    var altB := OtherSide(g.anims, g.max);
    var ts1 := Link(ts, g.anims, g.max, altA, 0).1;
    var out := LinkBoth(ts, g, bound).1;
    assert out == Link(ts1, g.alts, g.altmax, altB, 0).1;
    assert Distinct(g.anims, g.max) && Distinct(g.alts, g.altmax);
    LinkedFrames(ts, g.anims, g.max, altA, 0);
    LinkedFrames(ts1, g.alts, g.altmax, altB, 0);
    forall k | 0 <= k < g.max
      ensures out[g.anims[k].value] == ts1[g.anims[k].value]
    {
      assert Untouched(g.alts, 0, g.altmax, g.anims[k].value);
    }
    forall k | 0 <= k < g.altmax
      ensures ts1[g.alts[k].value] == ts[g.alts[k].value]
    {
      assert Untouched(g.anims, 0, g.max, g.alts[k].value);
    }
  }

  /** `BothLinked` only looks at the slots of the group. */
  lemma BothLinkedAgree(ts: seq<Texture>, out: seq<Texture>, ts2: seq<Texture>, out2: seq<Texture>, g: Group)
    requires GroupWithin(g, |ts|) && |out| == |ts| == |ts2| == |out2| && BothLinked(ts, out, g)
    requires forall j :: 0 <= j < |ts| && (ts2[j] != ts[j] || out2[j] != out[j]) ==> Avoids(g, j)
    ensures BothLinked(ts2, out2, g)
  {
    forall k | 0 <= k < g.max
      ensures ts2[g.anims[k].value] == ts[g.anims[k].value] && out2[g.anims[k].value] == out[g.anims[k].value]
    {
      assert !Avoids(g, g.anims[k].value);
    }
    forall k | 0 <= k < g.altmax
      ensures ts2[g.alts[k].value] == ts[g.alts[k].value] && out2[g.alts[k].value] == out[g.alts[k].value]
    {
      assert !Avoids(g, g.alts[k].value);
    }
  }

  /**
   * A successful sequencing of the animation slot `idx` starts, with distinct
   * names, gives every slot of that animation from `idx` on a next frame.
   */
  lemma SequenceGroupLinksAll(ts: seq<Texture>, inUse: nat, idx: nat)
    requires inUse <= |ts| && NamesFit(ts) && idx < inUse && KeysUnique(ts, inUse) && IsAnimated(ts[idx])
    ensures SequenceGroup(ts, inUse, idx).0 ==>
      forall j :: idx <= j < inUse && SameAnimation(ts, idx, j) ==> SequenceGroup(ts, inUse, idx).1[j].animNext.Some?
  {
    var p := SequenceGroup(ts, inUse, idx);
    if p.0 {
      SequenceGroupLinksStart(ts, inUse, idx);
      var g := StartGroup(ts, inUse, idx).value;
      assert p == LinkBoth(ts, g, inUse);
      LinkBothGivesNext(ts, g, inUse);
      forall j | idx <= j < inUse && SameAnimation(ts, idx, j)
        ensures p.1[j].animNext.Some?
      {
        if j != idx {
          GroupHoldsSlot(ts, inUse, idx, j);
          LinkBothGivesSlotNext(ts, g, inUse, FrameOf(At(ts[j].name, 1)), j);
        }
      }
    }
  }

  /** A slot held by a side of `g` has a next frame after a successful `LinkBoth`. */
  lemma LinkBothGivesSlotNext(ts: seq<Texture>, g: Group, bound: nat, f: Frame, j: nat)
    requires GroupWithin(g, bound) && bound <= |ts|
    requires AllPresent(g.anims, 0, g.max) && AllPresent(g.alts, 0, g.altmax)
    requires f.Primary? ==> f.k < g.max && g.anims[f.k] == Some(j)
    requires f.Alternate? ==> f.k < g.altmax && g.alts[f.k] == Some(j)
    requires !f.BadFrame?
    ensures j < |ts| && LinkBoth(ts, g, bound).1[j].animNext.Some?
  {
    LinkBothGivesNext(ts, g, bound);
  }

  /**
   * A collected group, with distinct names, holds each later slot of its
   * animation under that slot's frame, below the count of its side.
   */
  lemma GroupHoldsSlot(ts: seq<Texture>, inUse: nat, idx: nat, j: nat)
    requires inUse <= |ts| && NamesFit(ts) && idx < j < inUse && KeysUnique(ts, inUse)
    requires StartGroup(ts, inUse, idx).Some? && SameAnimation(ts, idx, j)
    ensures var g, f := StartGroup(ts, inUse, idx).value, FrameOf(At(ts[j].name, 1));
      && (f.Primary? ==> f.k < g.max && g.anims[f.k] == Some(j))
      && (f.Alternate? ==> f.k < g.altmax && g.alts[f.k] == Some(j))
      && !f.BadFrame?
  {
    var g0 := AddFrame(EmptyGroup, FrameOf(At(ts[idx].name, 1)), idx);
    EmptyGroupWithin(idx + 1);
    assert StartGroup(ts, inUse, idx) == Collect(ts, inUse, idx, g0, idx + 1);
    CollectFailsIff(ts, inUse, idx, g0, idx + 1);
    assert !BadFrameOf(ts, idx, j);
    CollectHas(ts, inUse, idx, g0, idx + 1, j);
  }

  /** Collecting reads only the slots' names. */
  lemma {:induction false} CollectNamesOnly(ts: seq<Texture>, ts2: seq<Texture>, inUse: nat, idx: nat, g: Group, i: nat)
    requires inUse <= |ts| == |ts2| && NamesFit(ts) && idx < i <= inUse && GroupWithin(g, i)
    requires forall j :: 0 <= j < |ts| ==> ts2[j].name == ts[j].name
    ensures NamesFit(ts2) && Collect(ts2, inUse, idx, g, i) == Collect(ts, inUse, idx, g, i)
    decreases inUse - i
  {
    assert NamesFit(ts2);
    if i < inUse {
      CollectStep(ts, inUse, idx, g, i, i + 1);
      CollectStep(ts2, inUse, idx, g, i, i + 1);
      assert SameAnimation(ts2, idx, i) == SameAnimation(ts, idx, i);
      if SameAnimation(ts, idx, i) && !FrameOf(At(ts[i].name, 1)).BadFrame? {
        CollectNamesOnly(ts, ts2, inUse, idx, AddFrame(g, FrameOf(At(ts[i].name, 1)), i), i + 1);
      } else if !SameAnimation(ts, idx, i) {
        CollectNamesOnly(ts, ts2, inUse, idx, g, i + 1);
      }
    }
  }

  /** The group an animation's first slot starts depends only on the slots' names. */
  lemma StartGroupNamesOnly(ts: seq<Texture>, ts2: seq<Texture>, inUse: nat, idx: nat)
    requires inUse <= |ts| == |ts2| && NamesFit(ts) && idx < inUse
    requires forall j :: 0 <= j < |ts| ==> ts2[j].name == ts[j].name
    ensures NamesFit(ts2) && StartGroup(ts2, inUse, idx) == StartGroup(ts, inUse, idx)
  {
    var f := FrameOf(At(ts[idx].name, 1));
    assert NamesFit(ts2);
    if !f.BadFrame? {
      EmptyGroupWithin(idx + 1);
      CollectNamesOnly(ts, ts2, inUse, idx, AddFrame(EmptyGroup, f, idx), idx + 1);
    }
  }

  /**
   * The loop of `SetupAnimatingTextures` from slot `idx` on: each animated
   * slot in use that has no next frame yet starts an animation to sequence;
   * the first failure ends the loop.
   */
  function Sequence(ts: seq<Texture>, inUse: nat, idx: nat): (r: (bool, seq<Texture>))
    requires inUse <= |ts| && NamesFit(ts) && idx <= inUse
    ensures |r.1| == |ts| && NamesFit(r.1)
    ensures forall i :: 0 <= i < |ts| ==> r.1[i].name == ts[i].name
    ensures forall i :: inUse <= i < |ts| ==> r.1[i] == ts[i]
    decreases inUse - idx
  {
    if idx == inUse then (true, ts)
    else if !IsAnimated(ts[idx]) || ts[idx].animNext.Some? then Sequence(ts, inUse, idx + 1)
    else
      var p := SequenceGroup(ts, inUse, idx);
      if !p.0 then p else Sequence(p.1, inUse, idx + 1)
  }

  /** The animated slots below `n` all have a next frame. */
  predicate Sequenced(ts: seq<Texture>, n: nat)
    requires n <= |ts|
  {
    forall i :: 0 <= i < n && IsAnimated(ts[i]) ==> ts[i].animNext.Some?
  }

  /** When the loop succeeds on distinct names, every animated slot in use has been sequenced. */
  lemma {:induction false} SequenceSequencesAll(ts: seq<Texture>, inUse: nat, idx: nat)
    requires inUse <= |ts| && NamesFit(ts) && idx <= inUse && KeysUnique(ts, inUse)
    requires Sequenced(ts, idx)
    ensures Sequence(ts, inUse, idx).0 ==> Sequenced(Sequence(ts, inUse, idx).1, inUse)
    decreases inUse - idx
  {
    if idx < inUse {
      var next := idx + 1;
      if !IsAnimated(ts[idx]) || ts[idx].animNext.Some? {
        assert Sequenced(ts, next);
        SequenceSequencesAll(ts, inUse, next);
      } else {
        var p := SequenceGroup(ts, inUse, idx);
        if p.0 {
          SequenceGroupLinksStart(ts, inUse, idx);
          SequencedPastGroup(ts, p.1, inUse, idx);
          SequenceSequencesAll(p.1, inUse, next);
        }
      }
    }
  }

  /**
   * Relinking that keeps every name and every next frame, and gives slot
   * `idx` one, extends `Sequenced` past `idx` and keeps the names distinct.
   */
  lemma SequencedPastGroup(ts: seq<Texture>, ts2: seq<Texture>, inUse: nat, idx: nat)
    requires idx < inUse <= |ts| == |ts2| && KeysUnique(ts, inUse) && Sequenced(ts, idx)
    requires forall i :: 0 <= i < |ts| ==> ts2[i].name == ts[i].name
    requires forall i :: 0 <= i < |ts| && ts[i].animNext.Some? ==> ts2[i].animNext.Some?
    requires ts2[idx].animNext.Some?
    ensures Sequenced(ts2, idx + 1) && KeysUnique(ts2, inUse)
  {
    assert forall i :: 0 <= i < |ts| ==> IsAnimated(ts2[i]) == IsAnimated(ts[i]);
    KeysUniqueSameNames(ts, ts2, inUse);
  }

  /**
   * An animated slot in use with a bad frame character and no next frame
   * makes the loop fail: either it starts a group itself, or an earlier slot of
   * its animation collects it, and no other group links it.
   */
  lemma {:induction false} SequenceFailsOnBadFrame(ts: seq<Texture>, inUse: nat, idx: nat, j: nat)
    requires inUse <= |ts| && NamesFit(ts) && idx <= j < inUse
    requires IsAnimated(ts[j]) && ts[j].animNext.None? && FrameOf(At(ts[j].name, 1)).BadFrame?
    ensures !Sequence(ts, inUse, idx).0
    decreases j - idx
  {
    if idx < j && (!IsAnimated(ts[idx]) || ts[idx].animNext.Some?) {
      SequenceFailsOnBadFrame(ts, inUse, idx + 1, j);
    } else if idx < j {
      var p := SequenceGroup(ts, inUse, idx);
      if p.0 {
        SequenceGroupKeeps(ts, inUse, idx, j);
        SequenceFailsOnBadFrame(p.1, inUse, idx + 1, j);
      }
    }
  }

  /**
   * When every slot of the animation of `a` from `idx` on already has a next
   * frame, the loop from `idx` leaves all the slots of that animation alone.
   */
  lemma {:induction false} SequenceKeepsAnimation(ts: seq<Texture>, inUse: nat, idx: nat, a: nat)
    requires inUse <= |ts| && NamesFit(ts) && idx <= inUse && a < |ts| && IsAnimated(ts[a])
    requires forall j :: idx <= j < inUse && SameAnimation(ts, a, j) ==> ts[j].animNext.Some?
    ensures forall j :: 0 <= j < |ts| && SameAnimation(ts, a, j) ==> Sequence(ts, inUse, idx).1[j] == ts[j]
    decreases inUse - idx, 2
  {
    if idx < inUse {
      if !IsAnimated(ts[idx]) || ts[idx].animNext.Some? {
        SequenceKeepsOverSkip(ts, inUse, idx, a);
      } else {
        SequenceKeepsOverGroup(ts, inUse, idx, a);
      }
    }
  }

  /** The step of `SequenceKeepsAnimation` over a slot the loop passes by. */
  lemma {:induction false} SequenceKeepsOverSkip(ts: seq<Texture>, inUse: nat, idx: nat, a: nat)
    requires inUse <= |ts| && NamesFit(ts) && idx < inUse && a < |ts| && IsAnimated(ts[a])
    requires forall j :: idx <= j < inUse && SameAnimation(ts, a, j) ==> ts[j].animNext.Some?
    requires !IsAnimated(ts[idx]) || ts[idx].animNext.Some?
    ensures forall j :: 0 <= j < |ts| && SameAnimation(ts, a, j) ==> Sequence(ts, inUse, idx).1[j] == ts[j]
    decreases inUse - idx, 1
  {
    SequenceSkips(ts, inUse, idx);
    SequenceKeepsAnimation(ts, inUse, idx + 1, a);
  }

  /** The step of `SequenceKeepsAnimation` over a group of another animation. */
  lemma {:induction false} SequenceKeepsOverGroup(ts: seq<Texture>, inUse: nat, idx: nat, a: nat)
    requires inUse <= |ts| && NamesFit(ts) && idx < inUse && a < |ts| && IsAnimated(ts[a])
    requires forall j :: idx <= j < inUse && SameAnimation(ts, a, j) ==> ts[j].animNext.Some?
    requires IsAnimated(ts[idx]) && ts[idx].animNext.None?
    ensures forall j :: 0 <= j < |ts| && SameAnimation(ts, a, j) ==> Sequence(ts, inUse, idx).1[j] == ts[j]
    decreases inUse - idx, 1
  {
    var p := SequenceGroup(ts, inUse, idx);
    SequenceGroupKeepsAnimation(ts, inUse, idx, a);
    SequenceAtGroup(ts, inUse, idx);
    if p.0 {
      SequenceKeepsOnward(ts, p.1, inUse, idx, a);
    }
  }

  /**
   * The loop goes on from `idx + 1` over `ts1`, which has the names of `ts`
   * and its slots of `a`'s animation: it leaves those slots as they are in `ts`.
   */
  lemma {:induction false} SequenceKeepsOnward(ts: seq<Texture>, ts1: seq<Texture>, inUse: nat, idx: nat, a: nat)
    requires inUse <= |ts| == |ts1| && NamesFit(ts) && idx < inUse && a < |ts| && IsAnimated(ts[a])
    requires forall j :: idx <= j < inUse && SameAnimation(ts, a, j) ==> ts[j].animNext.Some?
    requires forall i :: 0 <= i < |ts| ==> ts1[i].name == ts[i].name
    requires forall j :: 0 <= j < |ts| && SameAnimation(ts, a, j) ==> ts1[j] == ts[j]
    ensures forall j :: 0 <= j < |ts| && SameAnimation(ts, a, j) ==> Sequence(ts1, inUse, idx + 1).1[j] == ts[j]
    decreases inUse - idx, 0
  {
    AnimationKeptAcross(ts, ts1, inUse, idx, a);
    SequenceKeepsAnimation(ts1, inUse, idx + 1, a);
    AnimationKeptComposes(ts, ts1, Sequence(ts1, inUse, idx + 1).1, a);
  }

  /** The loop passes over a slot that is not animated or already has a next frame. */
  lemma SequenceSkips(ts: seq<Texture>, inUse: nat, idx: nat)
    requires inUse <= |ts| && NamesFit(ts) && idx < inUse && (!IsAnimated(ts[idx]) || ts[idx].animNext.Some?)
    ensures Sequence(ts, inUse, idx) == Sequence(ts, inUse, idx + 1)
  {
  }

  /** The loop at a slot that starts a group: it fails with that group or goes on past it. */
  lemma SequenceAtGroup(ts: seq<Texture>, inUse: nat, idx: nat)
    requires inUse <= |ts| && NamesFit(ts) && idx < inUse && IsAnimated(ts[idx]) && ts[idx].animNext.None?
    ensures var p := SequenceGroup(ts, inUse, idx);
      Sequence(ts, inUse, idx) == if p.0 then Sequence(p.1, inUse, idx + 1) else p
  {
  }

  /** A step that keeps names and the slots of `a`'s animation keeps them linked from `idx + 1` on. */
  lemma AnimationKeptAcross(ts: seq<Texture>, ts1: seq<Texture>, inUse: nat, idx: nat, a: nat)
    requires inUse <= |ts| == |ts1| && NamesFit(ts) && a < |ts|
    requires forall i :: 0 <= i < |ts| ==> ts1[i].name == ts[i].name
    requires forall j :: 0 <= j < |ts| && SameAnimation(ts, a, j) ==> ts1[j] == ts[j]
    requires forall j :: idx <= j < inUse && SameAnimation(ts, a, j) ==> ts[j].animNext.Some?
    requires IsAnimated(ts[a])
    ensures inUse <= |ts1| && NamesFit(ts1) && a < |ts1| && IsAnimated(ts1[a])
    ensures forall j :: idx + 1 <= j < inUse && SameAnimation(ts1, a, j) ==> ts1[j].animNext.Some?
  {
    SameNamesSameAnimation(ts, ts1, a);
    assert ts1[a].name == ts[a].name;
  }

  /** Two steps that each keep names and the slots of `a`'s animation keep them together. */
  lemma AnimationKeptComposes(ts: seq<Texture>, ts1: seq<Texture>, ts2: seq<Texture>, a: nat)
    requires |ts| == |ts1| == |ts2| && NamesFit(ts) && a < |ts|
    requires forall i :: 0 <= i < |ts| ==> ts1[i].name == ts[i].name
    requires forall j :: 0 <= j < |ts| && SameAnimation(ts, a, j) ==> ts1[j] == ts[j]
    requires NamesFit(ts1) && forall j :: 0 <= j < |ts| && SameAnimation(ts1, a, j) ==> ts2[j] == ts1[j]
    ensures forall j :: 0 <= j < |ts| && SameAnimation(ts, a, j) ==> ts2[j] == ts[j]
  {
    SameNamesSameAnimation(ts, ts1, a);
  }

  /**
   * Slot `a` starts its animation: it is animated, has no next frame yet, and
   * no slot before it belongs to its animation.
   */
  predicate Starts(ts: seq<Texture>, a: nat)
    requires NamesFit(ts) && a < |ts|
  {
    IsAnimated(ts[a]) && ts[a].animNext.None? && forall i :: 0 <= i < a ==> !SameAnimation(ts, a, i)
  }

  /**
   * The loop is at `idx` and slot `a` still waits for its animation to be
   * collected: it is animated, has no next frame, and no slot from `idx` up
   * to it belongs to its animation.
   */
  predicate Pending(ts: seq<Texture>, inUse: nat, idx: nat, a: nat)
  {
    && inUse <= |ts| && NamesFit(ts) && idx <= a < inUse && KeysUnique(ts, inUse)
    && IsAnimated(ts[a]) && ts[a].animNext.None?
    && forall i :: idx <= i < a ==> !SameAnimation(ts, a, i)
  }

  /**
   * When the loop from `idx` succeeds on distinct names with result `r`, the
   * animation whose first slot from `idx` on is `a` has had its group
   * collected, and every frame of both its sides ends up linked from what it
   * was in `ts`.
   */
  lemma {:induction false} SequenceLinksAnimation(ts: seq<Texture>, inUse: nat, idx: nat, a: nat, r: (bool, seq<Texture>))
    requires Pending(ts, inUse, idx, a) && r == Sequence(ts, inUse, idx)
    ensures r.0 ==> StartGroup(ts, inUse, a).Some? && BothLinked(ts, r.1, StartGroup(ts, inUse, a).value)
    decreases a - idx, 3
  {
    if idx < a && (!IsAnimated(ts[idx]) || ts[idx].animNext.Some?) {
      SequenceSkips(ts, inUse, idx);
      SequenceLinksOverSkip(ts, inUse, idx, a, r);
    } else if idx < a {
      SequenceLinksOverGroup(ts, inUse, idx, a, r);
    } else {
      SequenceLinksAtStart(ts, inUse, a, r);
    }
  }

  /** The step of `SequenceLinksAnimation` over a slot the loop passes by. */
  lemma {:induction false} SequenceLinksOverSkip(ts: seq<Texture>, inUse: nat, idx: nat, a: nat, r: (bool, seq<Texture>))
    requires Pending(ts, inUse, idx, a) && idx < a && r == Sequence(ts, inUse, idx + 1)
    requires !IsAnimated(ts[idx]) || ts[idx].animNext.Some?
    ensures r.0 ==> StartGroup(ts, inUse, a).Some? && BothLinked(ts, r.1, StartGroup(ts, inUse, a).value)
    decreases a - idx, 2
  {
    SequenceLinksAnimation(ts, inUse, idx + 1, a, r);
  }

  /** The step of `SequenceLinksAnimation` over a group started before `a`. */
  lemma {:induction false} SequenceLinksOverGroup(ts: seq<Texture>, inUse: nat, idx: nat, a: nat, r: (bool, seq<Texture>))
    requires Pending(ts, inUse, idx, a) && idx < a && r == Sequence(ts, inUse, idx)
    requires IsAnimated(ts[idx]) && ts[idx].animNext.None?
    ensures r.0 ==> StartGroup(ts, inUse, a).Some? && BothLinked(ts, r.1, StartGroup(ts, inUse, a).value)
    decreases a - idx, 2
  {
    SequenceAtGroup(ts, inUse, idx);
    if SequenceGroup(ts, inUse, idx).0 {
      SequenceLinksPastGroup(ts, inUse, idx, a, r);
    }
  }

  /**
   * A group started before `a` hands the loop on to the next slot with the
   * same result, with `a` still pending and its animation's slots untouched.
   */
  lemma LinksHandover(ts: seq<Texture>, inUse: nat, idx: nat, a: nat, r: (bool, seq<Texture>))
    requires Pending(ts, inUse, idx, a) && idx < a && r == Sequence(ts, inUse, idx)
    requires IsAnimated(ts[idx]) && ts[idx].animNext.None? && SequenceGroup(ts, inUse, idx).0
    ensures var ts1 := SequenceGroup(ts, inUse, idx).1;
      && Pending(ts1, inUse, idx + 1, a) && r == Sequence(ts1, inUse, idx + 1)
      && forall j :: 0 <= j < |ts| && SameAnimation(ts, a, j) ==> ts1[j] == ts[j]
  {
    assert !SameAnimation(ts, a, idx);
    SequenceGroupKeepsAnimation(ts, inUse, idx, a);
    StartKeptAcross(ts, SequenceGroup(ts, inUse, idx).1, inUse, idx, a);
    SequenceAtGroup(ts, inUse, idx);
  }

  /**
   * A group started by a slot of another animation leaves the slots of `a`'s
   * animation as they were.
   */
  lemma SequenceGroupKeepsAnimation(ts: seq<Texture>, inUse: nat, idx: nat, a: nat)
    requires inUse <= |ts| && NamesFit(ts) && idx < inUse && a < |ts|
    requires IsAnimated(ts[idx]) && IsAnimated(ts[a]) && !SameAnimation(ts, a, idx)
    ensures forall j :: 0 <= j < |ts| && SameAnimation(ts, a, j) ==> SequenceGroup(ts, inUse, idx).1[j] == ts[j]
    ensures KeysUnique(ts, inUse) ==> KeysUnique(SequenceGroup(ts, inUse, idx).1, inUse)
    ensures forall j :: 0 <= j < |ts| ==> SameAnimation(SequenceGroup(ts, inUse, idx).1, a, j) == SameAnimation(ts, a, j)
  {
    var p := SequenceGroup(ts, inUse, idx);
    forall j | 0 <= j < |ts| && SameAnimation(ts, a, j)
      ensures p.1[j] == ts[j]
    {
      assert !SameAnimation(ts, idx, j);
      SequenceGroupKeeps(ts, inUse, idx, j);
    }
    SameNamesSameAnimation(ts, p.1, a);
  }

  /** Slots with the same names belong to the same animations and stay distinct. */
  lemma SameNamesSameAnimation(ts: seq<Texture>, ts2: seq<Texture>, a: nat)
    requires |ts2| == |ts| && NamesFit(ts) && a < |ts|
    requires forall i :: 0 <= i < |ts| ==> ts2[i].name == ts[i].name
    ensures NamesFit(ts2)
    ensures forall j :: 0 <= j < |ts| ==> SameAnimation(ts2, a, j) == SameAnimation(ts, a, j)
    ensures forall n :: KeysUnique(ts, n) ==> KeysUnique(ts2, n)
  {
    forall n | KeysUnique(ts, n)
      ensures KeysUnique(ts2, n)
    {
      KeysUniqueSameNames(ts, ts2, n);
    }
  }

  /**
   * A step that keeps names and the slots of `a`'s animation keeps `a` the
   * first slot of its animation from `idx + 1` on.
   */
  lemma StartKeptAcross(ts: seq<Texture>, ts1: seq<Texture>, inUse: nat, idx: nat, a: nat)
    requires inUse <= |ts| == |ts1| && NamesFit(ts) && idx < a < inUse && KeysUnique(ts, inUse)
    requires forall i :: 0 <= i < |ts| ==> ts1[i].name == ts[i].name
    requires forall j :: 0 <= j < |ts| && SameAnimation(ts, a, j) ==> ts1[j] == ts[j]
    requires IsAnimated(ts[a]) && ts[a].animNext.None? && forall i :: idx <= i < a ==> !SameAnimation(ts, a, i)
    ensures inUse <= |ts1| && NamesFit(ts1) && KeysUnique(ts1, inUse)
    ensures IsAnimated(ts1[a]) && ts1[a].animNext.None? && forall i :: idx + 1 <= i < a ==> !SameAnimation(ts1, a, i)
  {
    SameNamesSameAnimation(ts, ts1, a);
    assert SameAnimation(ts, a, a);
  }

  /** A group started before `a` that the loop sequences hands `a` on to the rest of the loop. */
  lemma {:induction false} SequenceLinksPastGroup(ts: seq<Texture>, inUse: nat, idx: nat, a: nat, r: (bool, seq<Texture>))
    requires Pending(ts, inUse, idx, a) && idx < a && r == Sequence(ts, inUse, idx)
    requires IsAnimated(ts[idx]) && ts[idx].animNext.None? && SequenceGroup(ts, inUse, idx).0
    ensures r.0 ==> StartGroup(ts, inUse, a).Some? && BothLinked(ts, r.1, StartGroup(ts, inUse, a).value)
    decreases a - idx, 1
  {
    LinksHandover(ts, inUse, idx, a, r);
    SequenceLinksOnward(ts, SequenceGroup(ts, inUse, idx).1, inUse, idx, a, r);
  }

  /**
   * The loop goes on from `idx + 1` over `ts1`, which differs from `ts` only
   * outside `a`'s animation: what it links for `a` in `ts1` is linked for `a`
   * in `ts`.
   */
  lemma {:induction false} SequenceLinksOnward(ts: seq<Texture>, ts1: seq<Texture>, inUse: nat, idx: nat, a: nat, r: (bool, seq<Texture>))
    requires inUse <= |ts| == |ts1| && NamesFit(ts) && idx < a < inUse && IsAnimated(ts[a])
    requires forall i :: 0 <= i < |ts| ==> ts1[i].name == ts[i].name
    requires forall j :: 0 <= j < |ts| && SameAnimation(ts, a, j) ==> ts1[j] == ts[j]
    requires Pending(ts1, inUse, idx + 1, a) && r == Sequence(ts1, inUse, idx + 1)
    ensures r.0 ==> StartGroup(ts, inUse, a).Some? && BothLinked(ts, r.1, StartGroup(ts, inUse, a).value)
    decreases a - idx, 0
  {
    SequenceLinksAnimation(ts1, inUse, idx + 1, a, r);
    LinksAcross(ts, ts1, inUse, a, r);
  }

  /**
   * Two arrays with the same names that agree on `a`'s animation collect the
   * same group for it, and a result that links it in one links it in the other.
   */
  lemma LinksAcross(ts: seq<Texture>, ts1: seq<Texture>, inUse: nat, a: nat, r: (bool, seq<Texture>))
    requires inUse <= |ts| == |ts1| == |r.1| && NamesFit(ts) && a < inUse && IsAnimated(ts[a])
    requires forall i :: 0 <= i < |ts| ==> ts1[i].name == ts[i].name
    requires forall j :: 0 <= j < |ts| && SameAnimation(ts, a, j) ==> ts1[j] == ts[j]
    requires r.0 ==> StartGroup(ts1, inUse, a).Some? && BothLinked(ts1, r.1, StartGroup(ts1, inUse, a).value)
    ensures r.0 ==> StartGroup(ts, inUse, a).Some? && BothLinked(ts, r.1, StartGroup(ts, inUse, a).value)
  {
    if r.0 {
      StartGroupNamesOnly(ts, ts1, inUse, a);
      var g := StartGroup(ts, inUse, a).value;
      assert SameAnimation(ts, a, a);
      forall j | 0 <= j < |ts| && ts1[j] != ts[j]
        ensures Avoids(g, j)
      {
        StartGroupAvoids(ts, inUse, a, j);
      }
      BothLinkedAgree(ts1, r.1, ts, r.1, g);
    }
  }

  /** The step of `SequenceLinksAnimation` at `a`, which starts the group of its animation. */
  lemma SequenceLinksAtStart(ts: seq<Texture>, inUse: nat, a: nat, r: (bool, seq<Texture>))
    requires Pending(ts, inUse, a, a) && r == Sequence(ts, inUse, a)
    ensures r.0 ==> StartGroup(ts, inUse, a).Some? && BothLinked(ts, r.1, StartGroup(ts, inUse, a).value)
  {
    var p := SequenceGroup(ts, inUse, a);
    if p.0 {
      assert r == Sequence(p.1, inUse, a + 1);
      var out := r.1;
      SequenceGroupLinksGroup(ts, inUse, a);
      var g := StartGroup(ts, inUse, a).value;
      SequencePastStartKeeps(ts, inUse, a);
      forall j | 0 <= j < |ts| && out[j] != p.1[j]
        ensures Avoids(g, j)
      {
        assert !SameAnimation(ts, a, j);
        StartGroupAvoids(ts, inUse, a, j);
      }
      BothLinkedAgree(ts, p.1, ts, out, g);
    }
  }

  /** After its group is sequenced, the rest of the loop leaves the slots of an animation alone. */
  lemma SequencePastStartKeeps(ts: seq<Texture>, inUse: nat, a: nat)
    requires inUse <= |ts| && NamesFit(ts) && a < inUse && KeysUnique(ts, inUse) && IsAnimated(ts[a])
    requires SequenceGroup(ts, inUse, a).0
    ensures var p := SequenceGroup(ts, inUse, a);
      forall j :: 0 <= j < |ts| && SameAnimation(ts, a, j) ==> Sequence(p.1, inUse, a + 1).1[j] == p.1[j]
  {
    var p := SequenceGroup(ts, inUse, a);
    SequenceGroupLinksAll(ts, inUse, a);
    LinkedAnimationKept(ts, p.1, inUse, a);
  }

  /**
   * Once every slot of an animation from `a` on has a next frame, the loop
   * after `a` leaves that animation's slots alone.
   */
  lemma LinkedAnimationKept(ts: seq<Texture>, ts2: seq<Texture>, inUse: nat, a: nat)
    requires inUse <= |ts| == |ts2| && NamesFit(ts) && a < inUse && IsAnimated(ts[a])
    requires forall i :: 0 <= i < |ts| ==> ts2[i].name == ts[i].name
    requires forall j :: a <= j < inUse && SameAnimation(ts, a, j) ==> ts2[j].animNext.Some?
    ensures forall j :: 0 <= j < |ts| && SameAnimation(ts, a, j) ==> Sequence(ts2, inUse, a + 1).1[j] == ts2[j]
  {
    SameNamesSameAnimation(ts, ts2, a);
    SequenceKeepsAnimation(ts2, inUse, a + 1, a);
  }

  /** A successful sequencing of one animation links every frame of both its sides. */
  lemma SequenceGroupLinksGroup(ts: seq<Texture>, inUse: nat, a: nat)
    requires inUse <= |ts| && NamesFit(ts) && a < inUse && SequenceGroup(ts, inUse, a).0
    ensures StartGroup(ts, inUse, a).Some?
    ensures BothLinked(ts, SequenceGroup(ts, inUse, a).1, StartGroup(ts, inUse, a).value)
  {
    var g := StartGroup(ts, inUse, a).value;
    assert SequenceGroup(ts, inUse, a) == LinkBoth(ts, g, inUse);
    StartGroupSeparate(ts, inUse, a);
    LinkBothLinks(ts, g, inUse);
  }

  /** Some animated slot in use with no next frame has a bad frame character. */
  predicate HasBadFrame(ts: seq<Texture>, inUse: nat)
    requires inUse <= |ts| && NamesFit(ts)
  {
    exists j :: 0 <= j < inUse && IsAnimated(ts[j]) && ts[j].animNext.None? && FrameOf(At(ts[j].name, 1)).BadFrame?
  }

  /** A bad frame character on a slot the loop has still to reach makes the whole loop fail. */
  lemma SequenceFailsOnAnyBadFrame(ts: seq<Texture>, inUse: nat)
    requires inUse <= |ts| && NamesFit(ts)
    ensures HasBadFrame(ts, inUse) ==> !Sequence(ts, inUse, 0).0
  {
    if HasBadFrame(ts, inUse) {
      var j :| 0 <= j < inUse && IsAnimated(ts[j]) && ts[j].animNext.None? && FrameOf(At(ts[j].name, 1)).BadFrame?;
      SequenceFailsOnBadFrame(ts, inUse, 0, j);
    }
  }

  /**
   * Every slot in use that starts its animation in `ts` has collected a group
   * whose frames, on both sides, are linked in `out`.
   */
  predicate AllLinked(ts: seq<Texture>, inUse: nat, out: seq<Texture>)
    requires inUse <= |ts| == |out| && NamesFit(ts)
  {
    forall a :: 0 <= a < inUse && Starts(ts, a) ==>
      StartGroup(ts, inUse, a).Some? && BothLinked(ts, out, StartGroup(ts, inUse, a).value)
  }

  /** When the whole loop succeeds on distinct names, every animation's first slot has its group linked. */
  lemma SequenceLinksAll(ts: seq<Texture>, inUse: nat)
    requires inUse <= |ts| && NamesFit(ts) && KeysUnique(ts, inUse)
    ensures Sequence(ts, inUse, 0).0 ==> AllLinked(ts, inUse, Sequence(ts, inUse, 0).1)
  {
    forall a | 0 <= a < inUse && Starts(ts, a)
      ensures Sequence(ts, inUse, 0).0 ==>
        StartGroup(ts, inUse, a).Some? && BothLinked(ts, Sequence(ts, inUse, 0).1, StartGroup(ts, inUse, a).value)
    {
      SequenceLinksAnimation(ts, inUse, 0, a, Sequence(ts, inUse, 0));
    }
  }

  /**
   * `SetupAnimatingTextures`: links every animation among the textures in
   * use; false when a frame character is bad or a frame is missing. Names,
   * the map and the unused slots do not change. On success, each animation's
   * first slot has collected its group, and every frame of it holds its place,
   * its side's length, its successor and the other side's first frame.
   */
  function SetupAnimatingTextures(m: Manager): (r: (bool, Manager))
    requires Valid(m)
    ensures Valid(r.1) && r.1.inUse == m.inUse && r.1.texmap == m.texmap && |r.1.textures| == |m.textures|
    ensures forall i :: 0 <= i < |m.textures| ==> r.1.textures[i].name == m.textures[i].name
    ensures r.0 ==> Sequenced(r.1.textures, r.1.inUse)
    ensures HasBadFrame(m.textures, m.inUse) ==> !r.0
    ensures r.0 ==> AllLinked(m.textures, m.inUse, r.1.textures)
  {
    ValidKeysUnique(m);
    SequenceSequencesAll(m.textures, m.inUse, 0);
    SequenceFailsOnAnyBadFrame(m.textures, m.inUse);
    SequenceLinksAll(m.textures, m.inUse);
    var p := Sequence(m.textures, m.inUse, 0);
    (p.0, m.(textures := p.1))
  }
}
