/**
 * Entity text loading of entity/EntityIO.cpp: `{ "key" "value" ... }` blocks
 * read with the `COM_Parse` tokenizer into entities of the entity list.
 */
module EntityIO {
  import opened Wrappers
  import opened Tokenization
  import opened BaseEntity
  import opened EntityList
  import ModelRegistry

  /** `com_token[0] == '}'`. */
  predicate IsCloseBrace(token: string)
  {
    |token| > 0 && token[0] == '}'
  }

  /** `com_token[0] == '{'`. */
  predicate IsOpenBrace(token: string)
  {
    |token| > 0 && token[0] == '{'
  }

  /** A key with its trailing spaces removed. */
  function TrimTrailingSpaces(s: string): (r: string)
    ensures |r| <= |s| && r == s[..|r|]
    ensures |r| == 0 || r[|r| - 1] != ' '
    ensures forall k :: |r| <= k < |s| ==> s[k] == ' '
  {
    if |s| > 0 && s[|s| - 1] == ' ' then TrimTrailingSpaces(s[..|s| - 1]) else s
  }

  /** A position a tokenizer call accepts. */
  predicate InText(s: string, data: Option<nat>)
  {
    data.Some? ==> data.value <= |s| + 1
  }

  /** The measure of the parse loops: every parsed token moves the position forward. */
  function Remaining(s: string, data: Option<nat>): nat
    requires InText(s, data)
  {
    if data.Some? then |s| + 2 - data.value else 0
  }

  /** How the key/value pairs of a block end. */
  datatype BlockEnd =
    | Closed(rest: nat)       // a '}' key token; parsing goes on after it
    | EndOfInput              // the text ended before '}'
    | BraceWithoutData        // a '}' value token

  /** The key and value tokens of a block, as both block parsers read them. */
  datatype Block = Block(pairs: seq<(string, string)>, end: BlockEnd)

  /** The shared token structure of a block: key tokens, value tokens, and how it ends. */
  function ScanBlock(s: string, data: Option<nat>): (b: Block)
    requires InText(s, data)
    ensures b.end.Closed? ==> data.Some? && data.value < b.end.rest <= |s| + 1
    decreases Remaining(s, data)
  {
    var k := Parse(s, data);
    if IsCloseBrace(k.token) then Block([], Closed(k.rest.value))
    else if k.rest.None? then Block([], EndOfInput)
    else
      var v := Parse(s, k.rest);
      if v.rest.None? then Block([], EndOfInput)
      else if IsCloseBrace(v.token) then Block([], BraceWithoutData)
      else
        var b := ScanBlock(s, v.rest);
        Block([(k.token, v.token)] + b.pairs, b.end)
  }

  /** `ED_FindClassName`: the value of the first "classname" key of the block, if the block gets that far. */
  function FindClassName(s: string, data: Option<nat>): (r: Option<string>)
    requires InText(s, data)
    decreases Remaining(s, data)
  {
    var k := Parse(s, data);
    if IsCloseBrace(k.token) then None
    else if k.rest.None? then None
    else
      var key := TrimTrailingSpaces(k.token);
      var v := Parse(s, k.rest);
      if v.rest.None? then None
      else if IsCloseBrace(v.token) then None
      else if key == "classname" then Some(v.token)
      else FindClassName(s, v.rest)
  }

  /** The value of the first pair whose trimmed key is "classname". */
  function FirstClassName(pairs: seq<(string, string)>): Option<string>
  {
    if |pairs| == 0 then None
    else if TrimTrailingSpaces(pairs[0].0) == "classname" then Some(pairs[0].1)
    else FirstClassName(pairs[1..])
  }

  /** `ED_FindClassName` succeeds iff a "classname" key comes before the block ends, and yields its value. */
  lemma {:induction false} FindClassNameIsFirstClassName(s: string, data: Option<nat>)
    requires InText(s, data)
    ensures FindClassName(s, data) == FirstClassName(ScanBlock(s, data).pairs)
    decreases Remaining(s, data)
  {
    var k := Parse(s, data);
    if !IsCloseBrace(k.token) && k.rest.Some? {
      var v := Parse(s, k.rest);
      if v.rest.Some? && !IsCloseBrace(v.token) {
        FindClassNameIsFirstClassName(s, v.rest);
        var b := ScanBlock(s, v.rest);
        assert ScanBlock(s, data).pairs == [(k.token, v.token)] + b.pairs;
        assert ([(k.token, v.token)] + b.pairs)[1..] == b.pairs;
      }
    }
  }

  /**
   * The `KeyValue` call one pair leads to in `ED_ParseEdict`, or `None` when the
   * key is skipped: "angle" becomes "angles" with the value "0 v 0", "light"
   * becomes "light_lev", trailing spaces are trimmed, and a key starting with
   * '_' is dropped.
   */
  function PairCall(rawKey: string, value: string): (r: Option<(string, string)>)
  {
    var anglehack := rawKey == "angle";
    var k1 := if anglehack then "angles" else rawKey;
    var k2 := if k1 == "light" then "light_lev" else k1;
    var key := TrimTrailingSpaces(k2);
    if |key| > 0 && key[0] == '_' then None
    else Some((key, if anglehack then "0 " + value + " 0" else value))
  }

  lemma AngleKeyBecomesAngles(value: string)
    ensures PairCall("angle", value) == Some(("angles", "0 " + value + " 0"))
  {
  }

  lemma LightKeyBecomesLightLev(value: string)
    ensures PairCall("light", value) == Some(("light_lev", value))
  {
  }

  /** Keys starting with '_' never reach `KeyValue`. */
  lemma UnderscoreKeyDropped(rawKey: string, value: string)
    requires |rawKey| > 0 && rawKey[0] == '_'
    ensures PairCall(rawKey, value).None?
  {
    var key := TrimTrailingSpaces(rawKey);
    assert rawKey[..1] == "_";
    assert |key| > 0;
  }

  function Spaces(n: nat): (r: string)
    ensures |r| == n && forall i :: 0 <= i < n ==> r[i] == ' '
  {
    seq(n, _ => ' ')
  }

  /** Trailing spaces on a key are ignored. */
  lemma {:induction false} TrailingSpacesIgnored(key: string, n: nat, value: string)
    requires |key| > 0 && key[0] != '_' && key[|key| - 1] != ' '
    requires key != "angle" && key != "light"
    ensures PairCall(key + Spaces(n), value) == Some((key, value))
  {
    var raw := key + Spaces(n);
    if n > 0 {
      assert raw[|raw| - 1] == ' ';
      assert raw != "angle" && raw != "light";
      TrimSpaces(key, n);
    } else {
      assert raw == key;
    }
  }

  lemma {:induction false} TrimSpaces(key: string, n: nat)
    requires |key| == 0 || key[|key| - 1] != ' '
    ensures TrimTrailingSpaces(key + Spaces(n)) == key
    decreases n
  {
    if n > 0 {
      assert (key + Spaces(n))[..|key| + n - 1] == key + Spaces(n - 1);
      TrimSpaces(key, n - 1);
    } else {
      assert key + Spaces(0) == key;
    }
  }

  /** The entity after the calls of a block's pairs, in order. */
  function ApplyPairs(e: Entity, pairs: seq<(string, string)>, reg: ModelRegistry.Registry, p: NumberParser)
    : (r: Entity)
    ensures r.id == e.id && r.index == e.index && r.className == e.className
    decreases |pairs|
  {
    if |pairs| == 0 then e
    else
      var e1 := match PairCall(pairs[0].0, pairs[0].1)
        case None => e
        case Some(call) => KeyValue(e, call.0, call.1, reg, p).1;
      ApplyPairs(e1, pairs[1..], reg, p)
  }

  /** The entity value `e` written back to its slot, as the pointer updates do. */
  function Store(l: EntList, e: Entity): (r: EntList)
    requires e.index < |l.entities|
    ensures r.entities == l.entities[e.index := Some(e)] && r.count == l.count && r.nextId == l.nextId
  {
    l.(entities := l.entities[e.index := Some(e)])
  }

  /** The outcome of `ED_ParseEdict`: success, the entity list, the text position after the block, and the entity. */
  datatype EdictResult = EdictResult(ok: bool, list: EntList, rest: Option<nat>, entity: Option<Entity>)

  /** The pair loop of `ED_ParseEdict` for the entity `e`, already created in `l`. */
  function ParsePairs(s: string, data: Option<nat>, l: EntList, e: Entity, reg: ModelRegistry.Registry, p: NumberParser)
    : (r: EdictResult)
    requires InText(s, data) && e.index < |l.entities|
    ensures r.ok ==> r.rest.Some? && data.Some? && data.value < r.rest.value <= |s| + 1
    ensures Valid(l) && IsStored(l, e) ==> Valid(r.list)
    decreases Remaining(s, data)
  {
    var k := Parse(s, data);
    if IsCloseBrace(k.token) then
      StoreKeepsValid(l, e);
      EdictResult(true, Store(l, e), k.rest, Some(e))
    else if k.rest.None? then EdictResult(false, Destroy(l, Some(e)), None, None)
    else
      var anglehack := k.token == "angle";
      var t1 := if anglehack then "angles" else k.token;
      var t2 := if t1 == "light" then "light_lev" else t1;
      var key := TrimTrailingSpaces(t2);
      var v := Parse(s, k.rest);
      if v.rest.None? then EdictResult(false, Destroy(l, Some(e)), None, None)
      else if IsCloseBrace(v.token) then EdictResult(false, Destroy(l, Some(e)), None, None)
      else if |key| > 0 && key[0] == '_' then ParsePairs(s, v.rest, l, e, reg, p)
      else
        var value := if anglehack then "0 " + v.token + " 0" else v.token;
        ParsePairs(s, v.rest, l, KeyValue(e, key, value, reg, p).1, reg, p)
  }

  /** Writing back an updated entity with the same identity and index keeps a list valid. */
  lemma StoreKeepsValid(l: EntList, e: Entity)
    requires e.index < |l.entities|
    ensures Valid(l) && IsStored(l, e) ==> Valid(Store(l, e))
  {
    if Valid(l) && IsStored(l, e) {
      OccupiedUpdate(l.entities, e.index, Some(e));
    }
  }

  /** `ED_ParseEdict(data)`: find the class name, create the entity, then apply the block's pairs. */
  function ParseEdict(s: string, data: Option<nat>, l: EntList, reg: ModelRegistry.Registry, p: NumberParser)
    : (r: EdictResult)
    requires InText(s, data)
    ensures r.ok ==> r.rest.Some? && data.Some? && data.value < r.rest.value <= |s| + 1
    ensures Valid(l) ==> Valid(r.list)
  {
    match FindClassName(s, data)
    case None => EdictResult(false, l, None, None)
    case Some(className) =>
      var (l1, e) := Create(l, className);
      ParsePairs(s, data, l1, e, reg, p)
  }

  /** The pair loop follows the block structure: it applies every pair's call and succeeds iff the block is closed. */
  lemma {:induction false} ParsePairsFollowsBlock(s: string, data: Option<nat>, l: EntList, e: Entity,
                                                  reg: ModelRegistry.Registry, p: NumberParser)
    requires InText(s, data) && e.index < |l.entities|
    ensures var r := ParsePairs(s, data, l, e, reg, p);
      var b := ScanBlock(s, data);
      var e1 := ApplyPairs(e, b.pairs, reg, p);
      && (r.ok <==> b.end.Closed?)
      && (r.ok ==> r.list == Store(l, e1) && r.rest == Some(b.end.rest) && r.entity == Some(e1))
      && (!r.ok ==> r.list == Destroy(l, Some(e1)) && r.rest.None? && r.entity.None?)
    decreases Remaining(s, data)
  {
    var k := Parse(s, data);
    if !IsCloseBrace(k.token) && k.rest.Some? {
      var v := Parse(s, k.rest);
      if v.rest.Some? && !IsCloseBrace(v.token) {
        var anglehack := k.token == "angle";
        var t1 := if anglehack then "angles" else k.token;
        var t2 := if t1 == "light" then "light_lev" else t1;
        var key := TrimTrailingSpaces(t2);
        var next := if |key| > 0 && key[0] == '_' then e
          else KeyValue(e, key, if anglehack then "0 " + v.token + " 0" else v.token, reg, p).1;
        ParsePairsFollowsBlock(s, v.rest, l, next, reg, p);
        var b := ScanBlock(s, v.rest);
        assert ScanBlock(s, data).pairs == [(k.token, v.token)] + b.pairs;
        assert ([(k.token, v.token)] + b.pairs)[1..] == b.pairs;
      }
    }
  }

  /**
   * `ED_ParseEdict` as a whole: it fails without creating anything when there is
   * no class name; otherwise it creates the entity, and either stores it with
   * every pair applied (the block was closed) or destroys it again.
   */
  lemma ParseEdictOutcome(s: string, data: Option<nat>, l: EntList, reg: ModelRegistry.Registry, p: NumberParser)
    requires InText(s, data) && Valid(l)
    ensures var r := ParseEdict(s, data, l, reg, p);
      var b := ScanBlock(s, data);
      && (FirstClassName(b.pairs).None? ==> !r.ok && r.list == l)
      && (FirstClassName(b.pairs).Some? ==>
            var (l1, e) := Create(l, FirstClassName(b.pairs).value);
            var e1 := ApplyPairs(e, b.pairs, reg, p);
            && (r.ok <==> b.end.Closed?)
            && (r.ok ==> r.entity == Some(e1) && r.list.entities == l1.entities[e.index := Some(e1)]
                         && r.list.count == l.count + 1 && r.rest == Some(b.end.rest))
            && (!r.ok ==> r.list.entities == l1.entities[e.index := None] && r.list.count == l.count))
  {
    FindClassNameIsFirstClassName(s, data);
    var b := ScanBlock(s, data);
    if FirstClassName(b.pairs).Some? {
      var (l1, e) := Create(l, FirstClassName(b.pairs).value);
      assert ParseEdict(s, data, l, reg, p) == ParsePairs(s, data, l1, e, reg, p);
      ParsePairsFollowsBlock(s, data, l1, e, reg, p);
      var e1 := ApplyPairs(e, b.pairs, reg, p);
      assert IsStored(l1, e1);
      assert Destroy(l1, Some(e1)).count == l.count;
    } else {
      assert ParseEdict(s, data, l, reg, p) == EdictResult(false, l, None, None);
    }
  }

  /** `ED_LoadFromFile`: parse `{ ... }` blocks until the text ends; any other token or a failed block fails. */
  function LoadFromFile(s: string, data: Option<nat>, l: EntList, reg: ModelRegistry.Registry, p: NumberParser)
    : (r: (bool, EntList))
    requires InText(s, data)
    ensures Valid(l) ==> Valid(r.1)
    decreases Remaining(s, data)
  {
    var t := Parse(s, data);
    if t.rest.None? then (true, l)
    else if !IsOpenBrace(t.token) then (false, l)
    else
      var r := ParseEdict(s, t.rest, l, reg, p);
      if !r.ok then (false, r.list)
      else LoadFromFile(s, r.rest, r.list, reg, p)
  }

  /** Text with no token left loads successfully and changes nothing. */
  lemma EmptyTextLoads(s: string, i: nat, l: EntList, reg: ModelRegistry.Registry, p: NumberParser)
    requires i <= |s| + 1
    requires forall k :: i <= k < |s| ==> IsBlank(s[k])
    ensures LoadFromFile(s, Some(i), l, reg, p) == (true, l)
  {
    BlankTextHasNoToken(s, i);
  }

  /** A first token other than '{' makes the load fail before any entity is created. */
  lemma MissingOpenBraceFails(s: string, data: Option<nat>, l: EntList, reg: ModelRegistry.Registry, p: NumberParser)
    requires InText(s, data)
    requires Parse(s, data).rest.Some? && !IsOpenBrace(Parse(s, data).token)
    ensures LoadFromFile(s, data, l, reg, p) == (false, l)
  {
  }
}
