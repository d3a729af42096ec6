/** The interaction dispatcher of `DiscordBot` as values: the registry of
    handlers (`self.events`), registration, and the routing of an interaction
    to the first registered key that occurs in its custom id.
    Handlers are opaque values of type `H`: dispatch selects one and the
    arguments it would be called with; it never runs it. */
module Dispatch {
  import opened Text

  datatype Option<T> = None | Some(value: T)

  /** Discord's component type codes handled by `on_interaction`. */
  const ButtonType: int := 2
  const SelectType: int := 3

  /** Registry of handlers by custom-id key. A Python dict iterates in
      insertion order, so the keys are kept in `order` as well. */
  datatype Registry<H> = Registry(events: map<string, H>, order: seq<string>)
  {
    /** `order` lists every key of `events` exactly once. */
    ghost predicate Valid()
    {
      && (forall i, j :: 0 <= i < j < |order| ==> order[i] != order[j])
      && (forall k :: k in events <==> k in order)
    }
  }

  /** The registry a new bot starts with: no keys at all. */
  function EmptyRegistry<H>(): (r: Registry<H>)
    ensures r.Valid()
    ensures forall k :: k !in r.events
  {
    Registry(map[], [])
  }

  /** Registration stores `f` under `key`: the key now maps to `f`, every other key keeps
      its handler, and every key already present keeps its position in the
      iteration order; a new key goes last. */
  function Register<H>(reg: Registry<H>, key: string, f: H): (r: Registry<H>)
    requires reg.Valid()
    ensures r.Valid()
    ensures key in r.events && r.events[key] == f
    ensures forall k :: k != key ==> (k in r.events <==> k in reg.events)
    ensures forall k :: k != key && k in reg.events ==> r.events[k] == reg.events[k]
    ensures |reg.order| <= |r.order| && r.order[..|reg.order|] == reg.order
    ensures |r.order| == |reg.order| + (if key in reg.events then 0 else 1)
  {
    Registry(reg.events[key := f], if key in reg.events then reg.order else reg.order + [key])
  }

  /** Registering the same key twice is the same as registering only the
      second handler: the last write wins. */
  lemma RegisterLastWriteWins<H>(reg: Registry<H>, key: string, f1: H, f2: H)
    requires reg.Valid()
    ensures Register(Register(reg, key, f1), key, f2) == Register(reg, key, f2)
  {
  }

  /** `keys[i]` is the first key, in iteration order, that occurs in `customId`. */
  ghost predicate FirstMatchAt(keys: seq<string>, customId: string, i: int)
  {
    && 0 <= i < |keys|
    && Contains(customId, keys[i])
    && forall j :: 0 <= j < i ==> !Contains(customId, keys[j])
  }

  /** The registered keys that occur in the custom id, kept in iteration
      order (the dict filter of `on_button_click`). */
  function Matches(keys: seq<string>, customId: string): (r: seq<string>)
    ensures forall k :: k in r <==> k in keys && Contains(customId, k)
    ensures r != [] ==> exists i :: FirstMatchAt(keys, customId, i) && r[0] == keys[i]
    decreases |keys|
  {
    if keys == [] then []
    else
      var rest := Matches(keys[1..], customId);
      assert forall k :: k in keys <==> k == keys[0] || k in keys[1..];
      if Contains(customId, keys[0]) then
        assert FirstMatchAt(keys, customId, 0);
        [keys[0]] + rest
      else
        assert rest != [] ==> exists i :: FirstMatchAt(keys, customId, i) && rest[0] == keys[i] by {
          if rest != [] {
            var i :| FirstMatchAt(keys[1..], customId, i) && rest[0] == keys[1..][i];
            assert FirstMatchAt(keys, customId, i + 1);
          }
        }
        rest
  }

  /** Filtering a list with one more key at the end filters the old list and
      then that key. */
  lemma {:induction false} MatchesAppend(keys: seq<string>, key: string, customId: string)
    ensures Matches(keys + [key], customId)
         == Matches(keys, customId) + (if Contains(customId, key) then [key] else [])
    decreases |keys|
  {
    if keys == [] {
      assert [key][1..] == [];
    } else {
      assert (keys + [key])[1..] == keys[1..] + [key];
      MatchesAppend(keys[1..], key, customId);
    }
  }

  /** The handler arguments: the custom id with every occurrence of the key
      followed by `_` removed, cut at each `-`. */
  function Args(customId: string, key: string): (args: seq<string>)
    ensures |args| >= 1
    ensures Join(args, "-") == ReplaceAll(customId, key + "_", "")
  {
    var remainder := ReplaceAll(customId, key + "_", "");
    JoinSplit(remainder, "-");
    Split(remainder, "-")
  }

  /** No argument contains the `-` delimiter, and the arguments are exactly
      the `-`-free pieces that join back to the remainder. */
  lemma ArgsArePieces(customId: string, key: string)
    ensures forall i :: 0 <= i < |Args(customId, key)| ==> '-' !in Args(customId, key)[i]
    ensures Split(Join(Args(customId, key), "-"), "-") == Args(customId, key)
  {
    var args := Args(customId, key);
    forall i | 0 <= i < |args| ensures '-' !in args[i] {
      ContainsChar(args[i], '-');
    }
  }

  /** When `key + "_"` does not occur in the custom id, the remainder is the
      whole custom id; otherwise it is strictly shorter. */
  lemma ArgsWithoutKeyPrefix(customId: string, key: string)
    ensures !Contains(customId, key + "_") <==> Join(Args(customId, key), "-") == customId
    ensures !Contains(customId, key + "_") ==> Args(customId, key) == Split(customId, "-")
  {
    RemoveAllUnchangedIff(customId, key + "_");
  }

  /** What dispatch decides for one interaction. */
  datatype Outcome<H> =
    | NoOp                                    // not a component interaction: ignored
    | NoMatch                                 // no registered key matched: error logged
    | Invoke(handler: H, args: seq<string>)   // handler called with (interaction, args)

  /** `on_button_click`: among the registered keys that occur in `customId`,
      take the first in registration order and call its handler with the
      arguments parsed from the custom id; if none occurs, log an error. */
  function OnButtonClick<H>(reg: Registry<H>, customId: string): (r: Outcome<H>)
    requires reg.Valid()
    ensures !r.NoOp?
    ensures r.NoMatch? <==> forall k :: k in reg.events ==> !Contains(customId, k)
    ensures r.Invoke? ==>
      exists i :: && FirstMatchAt(reg.order, customId, i)
                  && r.handler == reg.events[reg.order[i]]
                  && r.args == Args(customId, reg.order[i])
  {
    var matched := Matches(reg.order, customId);
    if |matched| > 0 then Invoke(reg.events[matched[0]], Args(customId, matched[0]))
    else NoMatch
  }

  /** `on_list_change`: a select-list change is handled as a button click. */
  function OnListChange<H>(reg: Registry<H>, customId: string): (r: Outcome<H>)
    requires reg.Valid()
    ensures r == OnButtonClick(reg, customId)
  {
    OnButtonClick(reg, customId)
  }

  /** The fields of `interaction.data` that dispatch reads; a field missing
      from the payload is `None`. */
  datatype InteractionData = InteractionData(componentType: Option<int>, customId: Option<string>)

  /** `on_interaction`: buttons and select lists go to dispatch; any other
      component type, or a payload without `component_type` or `custom_id`
      (the `KeyError` that is caught and ignored), is a silent no-op. */
  function OnInteraction<H>(reg: Registry<H>, data: InteractionData): (r: Outcome<H>)
    requires reg.Valid()
    ensures r.NoOp? <==>
      (data.componentType != Some(ButtonType) && data.componentType != Some(SelectType))
      || data.customId.None?
    ensures !r.NoOp? ==> r == OnButtonClick(reg, data.customId.value)
  {
    match data.componentType
    case Some(t) =>
      if t == ButtonType && data.customId.Some? then OnButtonClick(reg, data.customId.value)
      else if t == SelectType && data.customId.Some? then OnListChange(reg, data.customId.value)
      else NoOp
    case None => NoOp
  }

  /** Buttons and select lists are dispatched identically. */
  lemma ButtonAndSelectAgree<H>(reg: Registry<H>, customId: Option<string>)
    requires reg.Valid()
    ensures OnInteraction(reg, InteractionData(Some(ButtonType), customId))
         == OnInteraction(reg, InteractionData(Some(SelectType), customId))
  {
  }

  /** The key chosen by dispatch is unique: at most one index is the first match. */
  lemma FirstMatchUnique(keys: seq<string>, customId: string, i: int, j: int)
    requires FirstMatchAt(keys, customId, i) && FirstMatchAt(keys, customId, j)
    ensures i == j
  {
  }

  /** Registering a key that does not occur in the custom id does not change
      how that custom id is dispatched. */
  lemma RegisterUnmatchedKey<H>(reg: Registry<H>, key: string, f: H, customId: string)
    requires reg.Valid()
    requires !Contains(customId, key)
    ensures OnButtonClick(Register(reg, key, f), customId) == OnButtonClick(reg, customId)
  {
    var reg' := Register(reg, key, f);
    if key !in reg.events {
      MatchesAppend(reg.order, key, customId);
    }
    assert Matches(reg'.order, customId) == Matches(reg.order, customId);
  }

  /** A newly registered key goes last: when some earlier key already occurs
      in the custom id, dispatch keeps choosing that earlier key. */
  lemma RegisterNewKeyGoesLast<H>(reg: Registry<H>, key: string, f: H, customId: string)
    requires reg.Valid()
    requires key !in reg.events
    requires exists k :: k in reg.events && Contains(customId, k)
    ensures OnButtonClick(Register(reg, key, f), customId) == OnButtonClick(reg, customId)
  {
    var reg' := Register(reg, key, f);
    MatchesAppend(reg.order, key, customId);
    var m := Matches(reg.order, customId);
    assert m != [];
    assert m[0] in reg.order;
    assert Matches(reg'.order, customId)[0] == m[0];
  }

  /** When the registered key is the only one that occurs in the custom id,
      dispatch calls the handler just registered. */
  lemma RegisterOnlyMatch<H>(reg: Registry<H>, key: string, f: H, customId: string)
    requires reg.Valid()
    requires Contains(customId, key)
    requires forall k :: k in reg.events && k != key ==> !Contains(customId, k)
    ensures OnButtonClick(Register(reg, key, f), customId) == Invoke(f, Args(customId, key))
  {
  }

  /** The arguments of a custom id `key + "_" + rest`, where `rest` holds
      no further `key + "_"`, are the `-`-free pieces that join to `rest`. */
  lemma ArgsAfterKey(key: string, rest: string, parts: seq<string>)
    requires !Contains(rest, key + "_")
    requires |parts| >= 1 && forall i :: 0 <= i < |parts| ==> '-' !in parts[i]
    requires Join(parts, "-") == rest
    ensures Args(key + "_" + rest, key) == parts
  {
    var pat := key + "_";
    var s := key + "_" + rest;
    assert s[..|pat|] == pat && s[|pat|..] == rest;
    ReplaceAllAbsent(rest, pat, "");
    assert ReplaceAll(s, pat, "") == rest;
    forall i | 0 <= i < |parts| ensures !Contains(parts[i], "-") {
      ContainsChar(parts[i], '-');
    }
    SplitJoinChar(parts, '-');
  }

  /** Key "abc" and custom id "abc_1-2-3": the handler gets ["1", "2", "3"]. */
  lemma ExampleExactMatch<H>(h: H)
    ensures OnButtonClick(Register(EmptyRegistry(), "abc", h), "abc_1-2-3")
         == Invoke(h, ["1", "2", "3"])
  {
    assert !Contains("1-2-3", "abc_") by {
      if Contains("1-2-3", "abc_") { ContainsHead("1-2-3", "abc_"); }
    }
    assert "abc" + "_" + "1-2-3" == "abc_1-2-3";
    ArgsAfterKey("abc", "1-2-3", ["1", "2", "3"]);
    assert StartsWith("abc_1-2-3", "abc");
  }

  /** Empty pieces are kept: "abc_-2-" gives ["", "2", ""]. */
  lemma ExampleEmptyPieces<H>(h: H)
    ensures OnButtonClick(Register(EmptyRegistry(), "abc", h), "abc_-2-")
         == Invoke(h, ["", "2", ""])
  {
    assert !Contains("-2-", "abc_") by {
      if Contains("-2-", "abc_") { ContainsHead("-2-", "abc_"); }
    }
    assert "abc" + "_" + "-2-" == "abc_-2-";
    ArgsAfterKey("abc", "-2-", ["", "2", ""]);
    assert StartsWith("abc_-2-", "abc");
  }

  /** Without "abc_" in the custom id the whole id is the one argument. */
  lemma ExampleBareKey<H>(h: H)
    ensures OnButtonClick(Register(EmptyRegistry(), "abc", h), "abc")
         == Invoke(h, ["abc"])
  {
    ArgsWithoutKeyPrefix("abc", "abc");
    ContainsChar("abc", '-');
    SplitWithoutSep("abc", '-');
    assert StartsWith("abc", "abc");
  }

  /** Every occurrence of "abc_" is removed, not only the first. */
  lemma ExampleEveryOccurrenceRemoved()
    ensures Args("abc_x-abc_y", "abc") == ["x", "y"]
  {
    var pat, x, y := "abc_", "x", "y";
    ReplaceAllAbsent(y, pat, "");
    ReplaceAllAtPattern(pat, y, "");
    ReplaceAllAtOther('-', pat + y, pat, "");
    ReplaceAllAtOther('x', "-" + pat + y, pat, "");
    ReplaceAllAtPattern(pat, x + "-" + pat + y, "");
    assert pat + (x + ("-" + pat + y)) == "abc_x-abc_y";
    assert "abc" + "_" == pat;
    assert ReplaceAll("abc_x-abc_y", pat, "") == "x-y";
    forall i | 0 <= i < 2 ensures !Contains([x, y][i], "-") {
      ContainsChar([x, y][i], '-');
    }
    assert Join([x, y], "-") == "x-y";
    SplitJoinChar([x, y], '-');
  }

  /** Nothing registered matches "xyz_1": no handler, an error is logged. */
  lemma ExampleNoMatch<H>(h: H)
    ensures OnButtonClick(EmptyRegistry<H>(), "xyz_1") == NoMatch
    ensures OnButtonClick(Register(EmptyRegistry(), "abc", h), "xyz_1") == NoMatch
  {
    if Contains("xyz_1", "abc") { ContainsHead("xyz_1", "abc"); }
  }

  /** Registering H1 then H2 under "abc" dispatches to H2. */
  lemma ExampleReRegister<H>(h1: H, h2: H)
    ensures OnButtonClick(Register(Register(EmptyRegistry(), "abc", h1), "abc", h2), "abc_1-2-3")
         == Invoke(h2, ["1", "2", "3"])
  {
    RegisterLastWriteWins(EmptyRegistry(), "abc", h1, h2);
    ExampleExactMatch(h2);
  }

  /** Of two matching keys the one registered first wins, even when the
      later one is longer. */
  lemma ExampleFirstRegisteredWins<H>(h1: H, h2: H)
    ensures OnButtonClick(Register(Register(EmptyRegistry(), "ab", h1), "abc", h2), "abc_1")
         == Invoke(h1, ["abc_1"])
  {
    var id := "abc_1";
    assert !Contains(id, "ab_") by {
      assert !StartsWith(id, "ab_") by { assert id[..3][2] != "ab_"[2]; }
      assert id[1..] == "bc_1";
      if Contains("bc_1", "ab_") { ContainsHead("bc_1", "ab_"); }
    }
    assert !Contains(id, "-") by { ContainsChar(id, '-'); }
    ArgsWithoutKeyPrefix(id, "ab");
    SplitWithoutSep(id, '-');
    var reg := Register(Register(EmptyRegistry(), "ab", h1), "abc", h2);
    assert reg.order == ["ab", "abc"];
    assert StartsWith(id, "ab") by { assert id[..2] == "ab"; }
    assert Matches(reg.order, id)[0] == "ab";
  }
}
