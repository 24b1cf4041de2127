/**
 * The known-model table of bsp/BSPRenderIO.cpp (`mod_known`, `mod_numknown`)
 * and `Mod_FindName`. Only the registered names are kept here; the loaded
 * model data is the value `LoadBrushModel` produces.
 */
module ModelRegistry {
  import opened Wrappers

  /** MAX_MOD_KNOWN. */
  const MAX_MOD_KNOWN: nat := 512

  /** MAX_QPATH (common/Const.h): the size of a model's name buffer. */
  const MAX_QPATH: nat := 64

  /** The names of the registered models, slot by slot; `|names|` is `mod_numknown`. */
  datatype Registry = Registry(names: seq<string>)

  predicate Valid(reg: Registry)
  {
    |reg.names| <= MAX_MOD_KNOWN
  }

  /** No name is registered twice. */
  predicate Distinct(reg: Registry)
  {
    forall i, j :: 0 <= i < j < |reg.names| ==> reg.names[i] != reg.names[j]
  }

  /** A name the source can copy into a model's name buffer. */
  predicate IsModelName(name: string)
  {
    '\0' !in name && |name| < MAX_QPATH
  }

  /** The first slot at or after `i` whose name equals `name`, or `|names|`. */
  function Search(names: seq<string>, name: string, i: nat): (j: nat)
    requires i <= |names|
    ensures i <= j <= |names|
    ensures j < |names| ==> names[j] == name
    ensures forall k :: i <= k < j ==> names[k] != name
    decreases |names| - i
  {
    if i == |names| || names[i] == name then i else Search(names, name, i + 1)
  }

  /**
   * `Mod_FindName`: the slot registered under `name`, registering it in the
   * next free slot when it is new; `None` for the empty name and for a new
   * name when all slots are taken.
   */
  function FindName(reg: Registry, name: string): (r: (Registry, Option<nat>))
    requires Valid(reg) && IsModelName(name)
    ensures Valid(r.0)
    ensures name == "" ==> r == (reg, None)
    ensures name != "" && name in reg.names ==>
      && r.0 == reg
      && r.1.Some? && r.1.value < |reg.names| && reg.names[r.1.value] == name
      && forall k :: 0 <= k < r.1.value ==> reg.names[k] != name
    ensures name != "" && name !in reg.names && |reg.names| == MAX_MOD_KNOWN ==> r == (reg, None)
    ensures name != "" && name !in reg.names && |reg.names| < MAX_MOD_KNOWN ==>
      r == (Registry(reg.names + [name]), Some(|reg.names|))
  {
    if name == "" then (reg, None)
    else
      var i := Search(reg.names, name, 0);
      if i == |reg.names| then
        if |reg.names| == MAX_MOD_KNOWN then (reg, None)
        else (Registry(reg.names + [name]), Some(i))
      else (reg, Some(i))
  }

  /** Registering keeps the names distinct. */
  lemma FindNameKeepsDistinct(reg: Registry, name: string)
    requires Valid(reg) && IsModelName(name) && Distinct(reg)
    ensures Distinct(FindName(reg, name).0)
  {
  }

  /** Looking a name up a second time finds the same slot and changes nothing. */
  lemma FindNameIdempotent(reg: Registry, name: string)
    requires Valid(reg) && IsModelName(name)
    ensures var (reg1, slot1) := FindName(reg, name);
      FindName(reg1, name) == (reg1, slot1)
  {
    var (reg1, slot1) := FindName(reg, name);
    if name != "" && slot1.Some? {
      assert reg1.names[slot1.value] == name;
      if name !in reg.names {
        assert forall k :: 0 <= k < |reg.names| ==> reg1.names[k] != name;
      }
    }
  }

  /** A returned slot always holds the requested name. */
  lemma FindNameSlotHoldsName(reg: Registry, name: string)
    requires Valid(reg) && IsModelName(name)
    ensures var (reg1, slot) := FindName(reg, name);
      slot.Some? ==> slot.value < |reg1.names| && reg1.names[slot.value] == name
  {
  }
}
