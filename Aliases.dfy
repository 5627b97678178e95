/** The alias pass of the Wizard of Oz and Finding Nemo scripts: walks the
    scene dictionary in insertion order and rewrites, in place, the
    character lists of two kinds of special scenes. A "Run Act X" scene gets
    the characters of every scene of act X, concatenated; an "Act X
    Dialogue" scene gets act X's dialogue list. X is a Roman numeral: "I"
    is act 1 and anything else act 2. */
module Aliases {
  import opened Tables
  import opened Text

  /** The scene name contains the text "Run Act". */
  predicate IsRunAct(k: string)
  {
    Contains(k, "Run Act")
  }

  /** The scene name contains "Dialogue" but not "All". */
  predicate IsDialogueAlias(k: string)
  {
    Contains(k, "Dialogue") && !Contains(k, "All")
  }

  /** A scene that the pass may rewrite. */
  predicate IsAlias(k: string)
  {
    IsRunAct(k) || IsDialogueAlias(k)
  }

  /** Matching the pattern "Run Act {}" against `k`: the literal matched without regard to case,
      then a non-empty rest. */
  function ParseRunAct(k: string): Option<string>
  {
    if |k| > 8 && SameIgnoringCase(k[..8], "Run Act ") then Some(k[8..]) else None
  }

  /** Matching the pattern "Act {} Dialogue" against `k`: both literals matched without regard
      to case around a non-empty middle. */
  function ParseActDialogue(k: string): Option<string>
  {
    if |k| > 13 && SameIgnoringCase(k[..4], "Act ") && SameIgnoringCase(k[|k| - 9..], " Dialogue")
    then Some(k[4..|k| - 9])
    else None
  }

  /** The act a Roman numeral names in the scripts. */
  function ActNumber(numeral: string): (a: int)
    ensures a == 1 || a == 2
    ensures a == 1 <==> numeral == "I"
  {
    if numeral == "I" then 1 else 2
  }

  /** The loop concatenating the character lists of an act's scenes. */
  method GatherChars(scenesToChars: map<string, seq<string>>, actScenes: seq<string>) returns (r: Result<seq<string>>)
    ensures r == Gather(scenesToChars, actScenes)
  {
    var tempChars := [];
    var j := 0;
    while j < |actScenes|
      invariant j <= |actScenes|
      invariant Gather(scenesToChars, actScenes[..j]) == Ok(tempChars)
    {
      assert actScenes[..j + 1][..j] == actScenes[..j];
      var s := actScenes[j];
      if s !in scenesToChars {
        assert Gather(scenesToChars, actScenes[..j + 1]) == Err(NoKey(s));
        GatherErrPersists(scenesToChars, actScenes, j + 1);
        return Err(NoKey(s));
      }
      tempChars := tempChars + scenesToChars[s];
      j := j + 1;
    }
    assert actScenes[..j] == actScenes;
    r := Ok(tempChars);
  }

  /** The "Run Act" half of the pass for scene `k`. */
  function RunActPart(m: OrderedMap, k: string, acts: ActMap): Result<OrderedMap>
  {
    if !IsRunAct(k) then Ok(m)
    else
      match ParseRunAct(k)
      case None => Err(NoMatch(k))
      case Some(numeral) =>
        match Gather(m.entries, acts[ActNumber(numeral)])
        case Err(e) => Err(e)
        case Ok(chars) => Ok(m.Put(k, chars))
  }

  /** The "Dialogue" half of the pass for scene `k`; it runs after the
      "Run Act" half whether or not that one applied. */
  function DialoguePart(m: OrderedMap, k: string, dialogue: ActMap): Result<OrderedMap>
  {
    if !IsDialogueAlias(k) then Ok(m)
    else
      match ParseActDialogue(k)
      case None => Err(NoMatch(k))
      case Some(numeral) => Ok(m.Put(k, dialogue[ActNumber(numeral)]))
  }

  /** One iteration of the pass, for scene `k`. */
  function AliasStep(m: OrderedMap, k: string, acts: ActMap, dialogue: ActMap): Result<OrderedMap>
  {
    match RunActPart(m, k, acts)
    case Err(e) => Err(e)
    case Ok(m1) => DialoguePart(m1, k, dialogue)
  }

  /** The pass over the scenes `ks`, in order, starting from `m`. */
  function ExpandFold(ks: seq<string>, m: OrderedMap, acts: ActMap, dialogue: ActMap): Result<OrderedMap>
  {
    if ks == [] then Ok(m)
    else
      match ExpandFold(ks[..|ks| - 1], m, acts, dialogue)
      case Err(e) => Err(e)
      case Ok(m1) => AliasStep(m1, ks[|ks| - 1], acts, dialogue)
  }

  /** The whole pass: every scene of the dictionary, in insertion order. */
  function AliasesOf(m: OrderedMap, acts: ActMap, dialogue: ActMap): Result<OrderedMap>
  {
    ExpandFold(m.keys, m, acts, dialogue)
  }

  /** The body of the pass for one scene. */
  method ExpandAlias(scenesToChars: OrderedMap, scene: string, actsToScenes: ActMap, actToDialogue: ActMap)
    returns (r: Result<OrderedMap>)
    ensures r == AliasStep(scenesToChars, scene, actsToScenes, actToDialogue)
  {
    var m := scenesToChars;
    if IsRunAct(scene) {
      var numeral := ParseRunAct(scene);
      if numeral.None? {
        return Err(NoMatch(scene));
      }
      var act := if numeral.value == "I" then 1 else 2;
      var tempChars := GatherChars(m.entries, actsToScenes[act]);
      if tempChars.Err? {
        return Err(tempChars.error);
      }
      m := m.Put(scene, tempChars.value);
    }
    if IsDialogueAlias(scene) {
      var numeral := ParseActDialogue(scene);
      if numeral.None? {
        return Err(NoMatch(scene));
      }
      var act := if numeral.value == "I" then 1 else 2;
      m := m.Put(scene, actToDialogue[act]);
    }
    r := Ok(m);
  }

  /** The pass: each scene of the dictionary in insertion order, rewriting entries as it goes. */
  method ExpandAliases(scenesToChars: OrderedMap, actsToScenes: ActMap, actToDialogue: ActMap)
    returns (r: Result<OrderedMap>)
    ensures r == AliasesOf(scenesToChars, actsToScenes, actToDialogue)
  {
    var keys := scenesToChars.keys;
    var m := scenesToChars;
    var j := 0;
    while j < |keys|
      invariant j <= |keys|
      invariant ExpandFold(keys[..j], scenesToChars, actsToScenes, actToDialogue) == Ok(m)
    {
      assert keys[..j + 1][..j] == keys[..j];
      var next := ExpandAlias(m, keys[j], actsToScenes, actToDialogue);
      if next.Err? {
        ExpandErrPersists(keys, j + 1, scenesToChars, actsToScenes, actToDialogue);
        return Err(next.error);
      }
      m := next.value;
      j := j + 1;
    }
    assert keys[..j] == keys;
    r := Ok(m);
  }

  lemma {:induction false} ExpandErrPersists(ks: seq<string>, n: nat, m: OrderedMap, acts: ActMap, dialogue: ActMap)
    requires n <= |ks| && ExpandFold(ks[..n], m, acts, dialogue).Err?
    ensures ExpandFold(ks, m, acts, dialogue) == ExpandFold(ks[..n], m, acts, dialogue)
    decreases |ks| - n
  {
    if n < |ks| {
      var front := ks[..|ks| - 1];
      assert front[..n] == ks[..n];
      ExpandErrPersists(front, n, m, acts, dialogue);
    } else {
      assert ks[..n] == ks;
    }
  }

  /** One iteration keeps the key order, the set of keys and every other
      scene's list; a scene that is no alias keeps its own list too. */
  lemma AliasStepFrame(m: OrderedMap, k: string, acts: ActMap, dialogue: ActMap)
    requires m.Valid() && k in m.keys
    ensures AliasStep(m, k, acts, dialogue).Ok? ==>
      var m' := AliasStep(m, k, acts, dialogue).value;
      && m'.Valid()
      && m'.keys == m.keys
      && (forall s :: s in m'.entries <==> s in m.entries)
      && (forall s :: s in m.entries && s != k ==> m'.entries[s] == m.entries[s])
    ensures !IsAlias(k) ==> AliasStep(m, k, acts, dialogue) == Ok(m)
  {
    var r1 := RunActPart(m, k, acts);
    if IsRunAct(k) && ParseRunAct(k).Some? {
      var chars := Gather(m.entries, acts[ActNumber(ParseRunAct(k).value)]);
      if chars.Ok? {
        PutSpec(m, k, chars.value);
      }
    }
    if r1.Ok? && IsDialogueAlias(k) && ParseActDialogue(k).Some? {
      PutSpec(r1.value, k, dialogue[ActNumber(ParseActDialogue(k).value)]);
    }
  }

  /** The pass over a prefix `ks` of the scenes keeps the key order and the
      set of keys, and leaves the list of every scene that is not an alias,
      or not yet visited, as it was. */
  lemma {:induction false} ExpandFrame(ks: seq<string>, m: OrderedMap, acts: ActMap, dialogue: ActMap)
    requires m.Valid() && |ks| <= |m.keys| && ks == m.keys[..|ks|]
    ensures ExpandFold(ks, m, acts, dialogue).Ok? ==>
      var m' := ExpandFold(ks, m, acts, dialogue).value;
      && m'.Valid()
      && m'.keys == m.keys
      && (forall s :: s in m'.entries <==> s in m.entries)
      && (forall s :: s in m.entries && (s !in ks || !IsAlias(s)) ==> m'.entries[s] == m.entries[s])
  {
    if ks != [] {
      var front, k := ks[..|ks| - 1], ks[|ks| - 1];
      assert front == m.keys[..|front|];
      ExpandFrame(front, m, acts, dialogue);
      if ExpandFold(front, m, acts, dialogue).Ok? {
        var m1 := ExpandFold(front, m, acts, dialogue).value;
        assert k in m1.keys;
        AliasStepFrame(m1, k, acts, dialogue);
      }
    }
  }

  /** After the pass, an "Act X Dialogue" scene (X parsed from its name)
      holds act X's dialogue list: the dialogue half runs last in its own
      iteration, and no later iteration touches it. */
  lemma {:induction false} DialogueEntry(ks: seq<string>, m: OrderedMap, acts: ActMap, dialogue: ActMap, k: string)
    requires m.Valid() && |ks| <= |m.keys| && ks == m.keys[..|ks|]
    requires k in ks && IsDialogueAlias(k)
    requires ExpandFold(ks, m, acts, dialogue).Ok?
    ensures ParseActDialogue(k).Some?
    ensures k in ExpandFold(ks, m, acts, dialogue).value.entries
    ensures ExpandFold(ks, m, acts, dialogue).value.entries[k] == dialogue[ActNumber(ParseActDialogue(k).value)]
  {
    var front, last := ks[..|ks| - 1], ks[|ks| - 1];
    assert front == m.keys[..|front|];
    var m1 := ExpandFold(front, m, acts, dialogue).value;
    ExpandFrame(front, m, acts, dialogue);
    assert last in m1.keys;
    AliasStepFrame(m1, last, acts, dialogue);
    if last == k {
      DialogueHalfWins(m1, k, acts, dialogue);
    } else {
      DialogueEntry(front, m, acts, dialogue, k);
    }
  }

  /** The iteration for a dialogue alias ends by storing its act's
      dialogue list. */
  lemma DialogueHalfWins(m: OrderedMap, k: string, acts: ActMap, dialogue: ActMap)
    requires IsDialogueAlias(k) && AliasStep(m, k, acts, dialogue).Ok?
    ensures ParseActDialogue(k).Some?
    ensures k in AliasStep(m, k, acts, dialogue).value.entries
    ensures AliasStep(m, k, acts, dialogue).value.entries[k] == dialogue[ActNumber(ParseActDialogue(k).value)]
  {
    var r1 := RunActPart(m, k, acts).value;
    PutSpec(r1, k, dialogue[ActNumber(ParseActDialogue(k).value)]);
  }

  /** No scene listed under an act is itself an alias. */
  predicate NoAliasInActs(acts: ActMap)
  {
    forall a, s :: a in acts && s in acts[a] ==> !IsAlias(s)
  }

  /** After the pass, a "Run Act X" scene that is not also a dialogue
      alias holds the concatenated lists of act X's scenes as they were
      before the pass, provided no act lists an alias: the scenes gathered
      are never rewritten, so the order of the walk does not matter. */
  lemma {:induction false} RunActEntry(ks: seq<string>, m: OrderedMap, acts: ActMap, dialogue: ActMap, k: string)
    requires m.Valid() && |ks| <= |m.keys| && ks == m.keys[..|ks|]
    requires NoAliasInActs(acts)
    requires k in ks && IsRunAct(k) && !IsDialogueAlias(k)
    requires ExpandFold(ks, m, acts, dialogue).Ok?
    ensures ParseRunAct(k).Some?
    ensures k in ExpandFold(ks, m, acts, dialogue).value.entries
    ensures var chars := Gather(m.entries, acts[ActNumber(ParseRunAct(k).value)]);
      chars.Ok? && ExpandFold(ks, m, acts, dialogue).value.entries[k] == chars.value
  {
    var front, last := ks[..|ks| - 1], ks[|ks| - 1];
    assert front == m.keys[..|front|];
    var m1 := ExpandFold(front, m, acts, dialogue).value;
    ExpandFrame(front, m, acts, dialogue);
    assert last in m1.keys;
    AliasStepFrame(m1, last, acts, dialogue);
    if last == k {
      var scenes := acts[ActNumber(ParseRunAct(k).value)];
      GatherAgree(m1.entries, m.entries, scenes);
      PutSpec(m1, k, Gather(m1.entries, scenes).value);
    } else {
      RunActEntry(front, m, acts, dialogue, k);
    }
  }

  /** The names the pass can read: a "Run Act" scene must match "Run Act
      {}" and a dialogue alias "Act {} Dialogue". */
  predicate AliasParses(k: string)
  {
    && (IsRunAct(k) ==> ParseRunAct(k).Some?)
    && (IsDialogueAlias(k) ==> ParseActDialogue(k).Some?)
  }

  /** When every scene listed under an act is a key, the pass never fails
      on a missing key: it succeeds exactly when every alias name parses,
      and otherwise fails with the first unparsable name. */
  lemma {:induction false} ExpandOk(ks: seq<string>, m: OrderedMap, acts: ActMap, dialogue: ActMap)
    requires m.Valid() && |ks| <= |m.keys| && ks == m.keys[..|ks|]
    requires forall a, s :: a in acts && s in acts[a] ==> s in m.entries
    ensures ExpandFold(ks, m, acts, dialogue).Ok? <==> forall k :: k in ks ==> AliasParses(k)
    ensures ExpandFold(ks, m, acts, dialogue).Err? ==> ExpandFold(ks, m, acts, dialogue).error.NoMatch?
  {
    if ks != [] {
      var front, last := ks[..|ks| - 1], ks[|ks| - 1];
      assert front == m.keys[..|front|];
      assert ks == front + [last];
      ExpandOk(front, m, acts, dialogue);
      ExpandFrame(front, m, acts, dialogue);
      if ExpandFold(front, m, acts, dialogue).Ok? {
        var m1 := ExpandFold(front, m, acts, dialogue).value;
        if IsRunAct(last) && ParseRunAct(last).Some? {
          var scenes := acts[ActNumber(ParseRunAct(last).value)];
          assert forall s :: s in scenes ==> s in m1.entries;
          GatherOk(m1.entries, scenes);
        }
        assert ExpandFold(ks, m, acts, dialogue).Ok? <==> AliasParses(last);
      }
    }
  }

  /** The pass over the whole dictionary keeps the keys and their order,
      and leaves the list of every scene that is no alias as it was. */
  lemma AliasesKeep(m: OrderedMap, acts: ActMap, dialogue: ActMap)
    requires m.Valid()
    ensures AliasesOf(m, acts, dialogue).Ok? ==>
      var m' := AliasesOf(m, acts, dialogue).value;
      && m'.Valid()
      && m'.keys == m.keys
      && (forall s :: s in m'.entries <==> s in m.entries)
      && (forall s :: s in m.entries && !IsAlias(s) ==> m'.entries[s] == m.entries[s])
  {
    assert m.keys[..|m.keys|] == m.keys;
    ExpandFrame(m.keys, m, acts, dialogue);
  }

  /** With every act scene a key of the dictionary (as the Scenes reader
      guarantees), the pass never fails on a missing key: it succeeds
      exactly when every alias name parses. */
  lemma AliasesOk(m: OrderedMap, acts: ActMap, dialogue: ActMap)
    requires m.Valid()
    requires forall a, s :: a in acts && s in acts[a] ==> s in m.entries
    ensures AliasesOf(m, acts, dialogue).Ok? <==> forall k :: k in m.keys ==> AliasParses(k)
    ensures AliasesOf(m, acts, dialogue).Err? ==> AliasesOf(m, acts, dialogue).error.NoMatch?
  {
    assert m.keys[..|m.keys|] == m.keys;
    ExpandOk(m.keys, m, acts, dialogue);
  }

  /** After the pass every dialogue alias holds its act's dialogue list,
      whatever the "Run Act" half did to it. */
  lemma AliasesDialogue(m: OrderedMap, acts: ActMap, dialogue: ActMap, k: string)
    requires m.Valid() && k in m.keys && IsDialogueAlias(k)
    requires AliasesOf(m, acts, dialogue).Ok?
    ensures ParseActDialogue(k).Some?
    ensures var m' := AliasesOf(m, acts, dialogue).value;
      k in m'.entries && m'.entries[k] == dialogue[ActNumber(ParseActDialogue(k).value)]
  {
    assert m.keys[..|m.keys|] == m.keys;
    DialogueEntry(m.keys, m, acts, dialogue, k);
  }

  /** After the pass, when no act lists an alias, every "Run Act X" scene
      that is not also a dialogue alias holds the concatenation, in act
      order and with repeats, of the lists act X's scenes had before the
      pass. */
  lemma AliasesRunAct(m: OrderedMap, acts: ActMap, dialogue: ActMap, k: string)
    requires m.Valid() && k in m.keys && IsRunAct(k) && !IsDialogueAlias(k)
    requires NoAliasInActs(acts)
    requires AliasesOf(m, acts, dialogue).Ok?
    ensures ParseRunAct(k).Some?
    ensures var chars := Gather(m.entries, acts[ActNumber(ParseRunAct(k).value)]);
      var m' := AliasesOf(m, acts, dialogue).value;
      chars.Ok? && k in m'.entries && m'.entries[k] == chars.value
  {
    assert m.keys[..|m.keys|] == m.keys;
    RunActEntry(m.keys, m, acts, dialogue, k);
  }

  /** An example of the pass's order dependence: "Act I Dialogue" is
      listed as a scene of act I, so what "Run Act I" gathers depends on
      whether the dialogue alias was rewritten before it. */
  const DialogueScene := "Act I Dialogue"
  const RunScene := "Run Act I"
  const Read := map[DialogueScene := ["Dorothy"], RunScene := []]
  const ActOne: ActMap := map[1 := [DialogueScene], 2 := []]
  const Lines: ActMap := map[1 := ["Scarecrow"], 2 := []]

  /** The example's names: one "Run Act" alias, one dialogue alias, both
      naming act I. */
  lemma RunSceneName()
    ensures IsRunAct(RunScene) && !IsDialogueAlias(RunScene) && ParseRunAct(RunScene) == Some("I")
  {
    assert OccursAt(RunScene, "Run Act", 0);
    MissingCharNotContained(RunScene, "Dialogue", 'D');
    assert RunScene[..8] == "Run Act " && RunScene[8..] == "I";
  }

  lemma DialogueSceneName()
    ensures !IsRunAct(DialogueScene) && IsDialogueAlias(DialogueScene) && ParseActDialogue(DialogueScene) == Some("I")
  {
    assert OccursAt(DialogueScene, "Dialogue", 6);
    MissingCharNotContained(DialogueScene, "Run Act", 'R');
    forall k | 0 <= k <= |DialogueScene| - 3 ensures !OccursAt(DialogueScene, "All", k) {
      if k == 0 {
        assert DialogueScene[1] != 'l';
      } else {
        assert DialogueScene[k..k + 3][0] == DialogueScene[k];
      }
    }
    assert DialogueScene[..4] == "Act " && DialogueScene[|DialogueScene| - 9..] == " Dialogue" && DialogueScene[4..|DialogueScene| - 9] == "I";
  }

  /** The run scene gathers act I's scenes from `m`. */
  lemma RunSceneStep(m: OrderedMap)
    requires DialogueScene in m.entries
    ensures AliasStep(m, RunScene, ActOne, Lines) == Ok(m.Put(RunScene, m.entries[DialogueScene]))
  {
    RunSceneName();
    var none: seq<string> := [];
    assert [DialogueScene][..0] == [];
    assert Gather(m.entries, [DialogueScene]) == Ok(none + m.entries[DialogueScene]);
    assert none + m.entries[DialogueScene] == m.entries[DialogueScene];
    assert RunActPart(m, RunScene, ActOne) == Ok(m.Put(RunScene, m.entries[DialogueScene]));
  }

  /** The dialogue scene takes act I's dialogue list. */
  lemma DialogueSceneStep(m: OrderedMap)
    ensures AliasStep(m, DialogueScene, ActOne, Lines) == Ok(m.Put(DialogueScene, ["Scarecrow"]))
  {
    DialogueSceneName();
  }

  /** Walked with the dialogue alias first, "Run Act I" gathers the
      dialogue list that replaced the scene's own characters. */
  lemma DialogueFirst()
    ensures AliasesOf(OrderedMap([DialogueScene, RunScene], Read), ActOne, Lines)
         == Ok(OrderedMap([DialogueScene, RunScene], Read[DialogueScene := ["Scarecrow"]][RunScene := ["Scarecrow"]]))
  {
    var m := OrderedMap([DialogueScene, RunScene], Read);
    var m1 := m.Put(DialogueScene, ["Scarecrow"]);
    PutSpec(m, DialogueScene, ["Scarecrow"]);
    PutSpec(m1, RunScene, ["Scarecrow"]);
    DialogueSceneStep(m);
    RunSceneStep(m1);
    assert m.keys[..1] == [DialogueScene] && m.keys[..1][..0] == [];
    assert ExpandFold(m.keys[..1], m, ActOne, Lines) == Ok(m1);
    assert m1.entries[DialogueScene] == ["Scarecrow"];
    assert ExpandFold(m.keys, m, ActOne, Lines) == Ok(m1.Put(RunScene, ["Scarecrow"]));
  }

  /** Walked with "Run Act I" first, it gathers the characters the Scenes
      sheet gave the dialogue scene. */
  lemma RunFirst()
    ensures AliasesOf(OrderedMap([RunScene, DialogueScene], Read), ActOne, Lines)
         == Ok(OrderedMap([RunScene, DialogueScene], Read[RunScene := ["Dorothy"]][DialogueScene := ["Scarecrow"]]))
  {
    var m := OrderedMap([RunScene, DialogueScene], Read);
    var m1 := m.Put(RunScene, ["Dorothy"]);
    PutSpec(m, RunScene, ["Dorothy"]);
    PutSpec(m1, DialogueScene, ["Scarecrow"]);
    RunSceneStep(m);
    DialogueSceneStep(m1);
    assert m.keys[..1] == [RunScene] && m.keys[..1][..0] == [];
    assert ExpandFold(m.keys[..1], m, ActOne, Lines) == Ok(m1);
    assert ExpandFold(m.keys, m, ActOne, Lines) == Ok(m1.Put(DialogueScene, ["Scarecrow"]));
  }
}
