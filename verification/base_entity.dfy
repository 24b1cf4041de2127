/**
 * `CBaseEntity` of entity/CBaseEntity.cpp: the entity record and `KeyValue`.
 * Number parsing (`strtod`, `strtol`) is a parameter: `strtod` gives a value and
 * how many characters it consumed. The source casts `strtod`'s `double` to
 * `float`; the parameter's value stands for the result of that cast.
 */
module BaseEntity {
  import opened Wrappers
  import opened CStrings
  import ModelRegistry

  /** RenderMode::FIRST and RenderMode::LAST (NORMAL ... ADDITIVE). */
  const RENDER_MODE_FIRST: int := 0
  const RENDER_MODE_LAST: int := 5

  datatype StrtodResult = StrtodResult(value: real, consumed: nat)

  /** The C library's number parsers, which are not part of this model. */
  datatype NumberParser = NumberParser(strtod: string -> StrtodResult, strtol: string -> int)

  /**
   * An entity. `id` stands for the object's identity (its address); `model` is
   * the slot of the bound brush model in the model registry.
   */
  datatype Entity = Entity(
    id: nat,
    className: string,
    index: nat,
    model: Option<nat>,
    origin: seq<real>,
    angles: seq<real>,
    renderMode: int,
    renderAmount: real)

  /** A freshly constructed entity (`Construct`) with the member defaults. */
  function NewEntity(id: nat, className: string, index: nat): (e: Entity)
    ensures e.id == id && e.className == className && e.index == index
    ensures e.model.None? && e.renderMode == RENDER_MODE_FIRST && e.renderAmount == 0.0
  {
    Entity(id, className, index, None, [0.0, 0.0, 0.0], [0.0, 0.0, 0.0], RENDER_MODE_FIRST, 0.0)
  }

  /** `clamp(min, val, max)`. */
  function Clamp(lo: real, v: real, hi: real): (r: real)
    ensures r == lo || r == v || r == hi
    ensures lo <= hi ==> lo <= r <= hi
    ensures lo <= v <= hi ==> r == v
  {
    if v < lo then lo else if v > hi then hi else v
  }

  /** The text from position `i` on; empty past the end. */
  function Drop(s: string, i: nat): (r: string)
    ensures i <= |s| ==> r == s[i..]
    ensures i > |s| ==> r == []
  {
    if i <= |s| then s[i..] else []
  }

  /** Where `strtod` starts reading component `k` of a vector: the end of component `k - 1`. */
  function ComponentStart(s: string, p: NumberParser, k: nat): nat
  {
    if k == 0 then 0 else ComponentStart(s, p, k - 1) + p.strtod(Drop(s, ComponentStart(s, p, k - 1))).consumed
  }

  /** The value `strtod` reads for component `k`. */
  function ComponentValue(s: string, p: NumberParser, k: nat): real
  {
    p.strtod(Drop(s, ComponentStart(s, p, k))).value
  }

  /** The text ends right after component `k`. */
  predicate EndsAfter(s: string, p: NumberParser, k: nat)
  {
    At(s, ComponentStart(s, p, k + 1)) == '\0'
  }

  /**
   * What the zero-fill after the `ParseVector` loop covers once the text ends
   * right after component `k`: as written the loop breaks before counting
   * component `k`, so the fill starts at `k` and overwrites it; the evident
   * intent is to keep it and start the fill at `k + 1`.
   */
  datatype ZeroFill = FromLast | AfterLast

  /** The `ParseVector` loop from component `k` on, reading at position `pos`. */
  function ParseComponents(s: string, p: NumberParser, pos: nat, k: nat, fill: ZeroFill): (v: seq<real>)
    requires k <= 3
    ensures |v| == 3 - k
    decreases 3 - k
  {
    if k == 3 then []
    else
      var r := p.strtod(Drop(s, pos));
      var next := pos + r.consumed;
      if At(s, next) == '\0' then
        if fill.FromLast? then Zeros(3 - k) else [r.value] + Zeros(2 - k)
      else [r.value] + ParseComponents(s, p, next, k + 1, fill)
  }

  function Zeros(n: nat): (z: seq<real>)
    ensures |z| == n && forall i :: 0 <= i < n ==> z[i] == 0.0
  {
    seq(n, _ => 0.0)
  }

  /**
   * `ParseVector` as written: component `k` is read by `strtod` where
   * component `k - 1` ended, and is 0 as soon as the text ends right after it
   * or after an earlier component. The value `strtod` returns is taken to be
   * already rounded to `float` by the parser parameter.
   */
  function ParseVector(s: string, p: NumberParser): (v: seq<real>)
    ensures |v| == 3
    ensures v[0] == if EndsAfter(s, p, 0) then 0.0 else ComponentValue(s, p, 0)
    ensures v[1] == if EndsAfter(s, p, 0) || EndsAfter(s, p, 1) then 0.0 else ComponentValue(s, p, 1)
    ensures v[2] == if EndsAfter(s, p, 0) || EndsAfter(s, p, 1) || EndsAfter(s, p, 2) then 0.0
                    else ComponentValue(s, p, 2)
  {
    ParseVectorUnfolds(s, p, FromLast);
    ParseComponents(s, p, 0, 0, FromLast)
  }

  /**
   * `ParseVector` with the fill starting after the last component read: every
   * component read is kept, and only those after the end of the text are 0.
   */
  function ParseVectorCorrected(s: string, p: NumberParser): (v: seq<real>)
    ensures |v| == 3
    ensures v[0] == ComponentValue(s, p, 0)
    ensures v[1] == if EndsAfter(s, p, 0) then 0.0 else ComponentValue(s, p, 1)
    ensures v[2] == if EndsAfter(s, p, 0) || EndsAfter(s, p, 1) then 0.0 else ComponentValue(s, p, 2)
  {
    ParseVectorUnfolds(s, p, AfterLast);
    ParseComponents(s, p, 0, 0, AfterLast)
  }

  lemma ParseVectorUnfolds(s: string, p: NumberParser, fill: ZeroFill)
    ensures var v := ParseComponents(s, p, 0, 0, fill);
      && v[0] == (if fill.FromLast? && EndsAfter(s, p, 0) then 0.0 else ComponentValue(s, p, 0))
      && v[1] == (if EndsAfter(s, p, 0) || (fill.FromLast? && EndsAfter(s, p, 1)) then 0.0
                  else ComponentValue(s, p, 1))
      && v[2] == (if EndsAfter(s, p, 0) || EndsAfter(s, p, 1) || (fill.FromLast? && EndsAfter(s, p, 2)) then 0.0
                  else ComponentValue(s, p, 2))
  {
    var v := ParseComponents(s, p, 0, 0, fill);
    assert ComponentStart(s, p, 1) == p.strtod(Drop(s, 0)).consumed;
    if !EndsAfter(s, p, 0) {
      var pos1 := ComponentStart(s, p, 1);
      assert v[1..] == ParseComponents(s, p, pos1, 1, fill);
      if !EndsAfter(s, p, 1) {
        var pos2 := ComponentStart(s, p, 2);
        assert v[2..] == ParseComponents(s, p, pos2, 2, fill);
        assert ComponentStart(s, p, 3) == pos2 + p.strtod(Drop(s, pos2)).consumed;
      }
    }
  }

  /**
   * The two fills differ exactly at the component after which the text ends:
   * as written it is 0, where the corrected loop keeps the value read.
   */
  lemma ZeroFillsDiffer(s: string, p: NumberParser, k: nat)
    requires k < 3
    ensures ParseVector(s, p)[k] != ParseVectorCorrected(s, p)[k] ==>
      && EndsAfter(s, p, k) && ParseVector(s, p)[k] == 0.0
      && ParseVectorCorrected(s, p)[k] == ComponentValue(s, p, k) != 0.0
    ensures EndsAfter(s, p, k) && (forall j :: 0 <= j < k ==> !EndsAfter(s, p, j)) ==>
      && ParseVector(s, p)[k] == 0.0
      && ParseVectorCorrected(s, p)[k] == ComponentValue(s, p, k)
  {
  }

  /**
   * A full three-number vector such as "10 20 30" loses its last component as
   * written, while the corrected loop keeps all three.
   */
  lemma ThreeNumbersLoseLast(s: string, p: NumberParser)
    requires !EndsAfter(s, p, 0) && !EndsAfter(s, p, 1) && EndsAfter(s, p, 2)
    ensures ParseVector(s, p) == [ComponentValue(s, p, 0), ComponentValue(s, p, 1), 0.0]
    ensures ParseVectorCorrected(s, p) == [ComponentValue(s, p, 0), ComponentValue(s, p, 1), ComponentValue(s, p, 2)]
  {
  }

  /** A single number "5" gives the zero vector as written, and (5, 0, 0) corrected. */
  lemma SingleNumberLost()
    ensures var p := NumberParser(_ => StrtodResult(5.0, 1), _ => 0);
      ParseVector("5", p) == [0.0, 0.0, 0.0] && ParseVectorCorrected("5", p) == [5.0, 0.0, 0.0]
  {
  }

  /** The value is a C `long` converted to the 32-bit `RenderMode`. */
  function ToInt32(v: int): (r: int)
    ensures -0x8000_0000 <= r < 0x8000_0000
    ensures -0x8000_0000 <= v < 0x8000_0000 ==> r == v
  {
    (v + 0x8000_0000) % 0x1_0000_0000 - 0x8000_0000
  }

  /**
   * The model scan of `KeyValue`: the first registered slot whose name equals
   * `value`, stopping at the first empty name.
   */
  function FindModel(names: seq<string>, value: string, i: nat): (r: Option<nat>)
    requires i <= |names|
    ensures r.Some? ==> i <= r.value < |names| && names[r.value] == value && value != ""
    decreases |names| - i
  {
    if i == |names| || names[i] == "" then None
    else if value == names[i] then Some(i)
    else FindModel(names, value, i + 1)
  }

  /** Slot `j` holds `value` and every slot from `i` up to `j` holds a different, non-empty name. */
  predicate FirstMatchAt(names: seq<string>, value: string, i: nat, j: nat)
  {
    i <= j < |names| && names[j] == value && value != ""
    && forall k :: i <= k < j ==> names[k] != "" && names[k] != value
  }

  /** The scan binds the first slot holding the name, unless an empty name comes before it. */
  lemma {:induction false} FindModelIsFirstMatch(names: seq<string>, value: string, i: nat)
    requires i <= |names|
    ensures FindModel(names, value, i).Some? ==> FirstMatchAt(names, value, i, FindModel(names, value, i).value)
    ensures FindModel(names, value, i).None? ==> forall j :: !FirstMatchAt(names, value, i, j)
    decreases |names| - i
  {
    if i < |names| && names[i] != "" && value != names[i] {
      FindModelIsFirstMatch(names, value, i + 1);
      forall j | FirstMatchAt(names, value, i, j)
        ensures FirstMatchAt(names, value, i + 1, j)
      {
      }
    }
  }

  /** The keys `KeyValue` handles. */
  predicate IsHandledKey(key: string)
  {
    key == "origin" || key == "angles" || key == "rendermode" || key == "renderamt" || key == "model"
  }

  /**
   * `KeyValue(key, value)`: whether the key was handled and the updated entity.
   * Each handled key changes only its own field.
   */
  function KeyValue(e: Entity, key: string, value: string, reg: ModelRegistry.Registry, p: NumberParser)
    : (r: (bool, Entity))
    ensures r.0 <==> IsHandledKey(key)
    ensures !r.0 ==> r.1 == e
    ensures r.1.id == e.id && r.1.className == e.className && r.1.index == e.index
    ensures key == "origin" ==> r.1 == e.(origin := ParseVector(value, p))
    ensures key == "angles" ==> r.1 == e.(angles := ParseVector(value, p))
    ensures key == "rendermode" ==>
      && r.1 == e.(renderMode := r.1.renderMode)
      && RENDER_MODE_FIRST <= r.1.renderMode <= RENDER_MODE_LAST
      && (RENDER_MODE_FIRST <= p.strtol(value) <= RENDER_MODE_LAST ==> r.1.renderMode == p.strtol(value))
    ensures key == "renderamt" ==>
      && r.1 == e.(renderAmount := r.1.renderAmount)
      && 0.0 <= r.1.renderAmount <= 255.0
      && (0.0 <= p.strtod(value).value <= 255.0 ==> r.1.renderAmount == p.strtod(value).value)
    ensures key == "model" ==>
      && r.1 == e.(model := r.1.model)
      && (FindModel(reg.names, value, 0).None? ==> r.1.model == e.model)
      && (FindModel(reg.names, value, 0).Some? ==> r.1.model == FindModel(reg.names, value, 0))
  {
    if key == "origin" then (true, e.(origin := ParseVector(value, p)))
    else if key == "angles" then (true, e.(angles := ParseVector(value, p)))
    else if key == "rendermode" then
      var m := ToInt32(p.strtol(value));
      var m' := if m < RENDER_MODE_FIRST then RENDER_MODE_FIRST else if m > RENDER_MODE_LAST then RENDER_MODE_LAST else m;
      (true, e.(renderMode := m'))
    else if key == "renderamt" then
      (true, e.(renderAmount := Clamp(0.0, p.strtod(value).value, 255.0)))
    else if key == "model" then
      match FindModel(reg.names, value, 0)
      case Some(i) => (true, e.(model := Some(i)))
      case None => (true, e)
    else (false, e)
  }
}
