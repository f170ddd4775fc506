/** Which known modules intervene in a question/answer block (modules_in_block). */
module ModuleDetection {
  import opened Strings
  import opened Config

  /**
   * The entries of `known` that occur in `text`, in the order of `known`.
   * Defined on prefixes of `known`, the way the loop extends its result.
   */
  function Detected(known: seq<string>, text: string): seq<string>
  {
    if known == [] then []
    else
      var last := known[|known| - 1];
      Detected(known[..|known| - 1], text) + (if Contains(text, last) then [last] else [])
  }

  /** modules_in_block: one pass over the declared modules, appending each that occurs. */
  method ModulesInBlock(logtext: string) returns (mods: seq<string>)
    ensures mods == Detected(KNOWN_MODULES, logtext)
  {
    mods := [];
    for i := 0 to |KNOWN_MODULES|
      invariant mods == Detected(KNOWN_MODULES[..i], logtext)
    {
      var mod := KNOWN_MODULES[i];
      if Contains(logtext, mod) {
        mods := mods + [mod];
      }
      assert KNOWN_MODULES[..i + 1][..i] == KNOWN_MODULES[..i];
    }
    assert KNOWN_MODULES[..|KNOWN_MODULES|] == KNOWN_MODULES;
  }

  /** A module is reported exactly when it is known and occurs in the text. */
  lemma {:induction false} DetectedMembers(known: seq<string>, text: string, m: string)
    ensures m in Detected(known, text) <==> m in known && Contains(text, m)
  {
    if known != [] {
      var init := known[..|known| - 1];
      DetectedMembers(init, text, m);
      assert known == init + [known[|known| - 1]];
    }
  }

  /**
   * The report follows the declared order, not the order of appearance: the
   * positions in `known` of the reported modules strictly increase (so a
   * duplicate-free list gives a duplicate-free report).
   */
  lemma {:induction false} DetectedInDeclaredOrder(known: seq<string>, text: string, p: nat, q: nat)
    requires NoDup(known)
    requires p < q < |Detected(known, text)|
    ensures Detected(known, text)[p] in known && Detected(known, text)[q] in known
    ensures Pos(known, Detected(known, text)[p]) < Pos(known, Detected(known, text)[q])
  {
    var init := known[..|known| - 1];
    var last := known[|known| - 1];
    var d := Detected(init, text);
    var r := Detected(known, text);
    assert known == init + [last];
    assert NoDup(init);
    assert last !in init;
    assert r[p] in known && r[q] in known by {
      DetectedMembers(known, text, r[p]);
      DetectedMembers(known, text, r[q]);
    }
    if q < |d| {
      DetectedInDeclaredOrder(init, text, p, q);
      DetectedMembers(init, text, d[p]);
      DetectedMembers(init, text, d[q]);
      PosAppend(init, last, d[p]);
      PosAppend(init, last, d[q]);
    } else {
      assert r[q] == last;
      DetectedMembers(init, text, d[p]);
      PosAppend(init, last, d[p]);
      PosLast(init, last);
    }
  }

  lemma {:induction false} DetectedNoDup(known: seq<string>, text: string)
    requires NoDup(known)
    ensures NoDup(Detected(known, text))
  {
    var r := Detected(known, text);
    forall p, q | 0 <= p < q < |r|
      ensures r[p] != r[q]
    {
      DetectedInDeclaredOrder(known, text, p, q);
    }
  }

  /** A block that mentions no known module yields an empty list. */
  lemma NothingDetected(text: string)
    requires forall m :: m in KNOWN_MODULES ==> !Contains(text, m)
    ensures Detected(KNOWN_MODULES, text) == []
  {
    var r := Detected(KNOWN_MODULES, text);
    if r != [] {
      DetectedMembers(KNOWN_MODULES, text, r[0]);
    }
  }

  lemma KnownModulesDistinct()
    ensures NoDup(KNOWN_MODULES)
  {
  }

  /** With both present, "ChatScript" is reported before "SIREN", wherever they appear. */
  lemma ChatScriptBeforeSiren(text: string)
    requires Contains(text, "ChatScript") && Contains(text, "SIREN")
    ensures "ChatScript" in Detected(KNOWN_MODULES, text) && "SIREN" in Detected(KNOWN_MODULES, text)
    ensures Pos(Detected(KNOWN_MODULES, text), "ChatScript") < Pos(Detected(KNOWN_MODULES, text), "SIREN")
  {
    var r := Detected(KNOWN_MODULES, text);
    DetectedMembers(KNOWN_MODULES, text, "ChatScript");
    DetectedMembers(KNOWN_MODULES, text, "SIREN");
    var p, q := Pos(r, "ChatScript"), Pos(r, "SIREN");
    KnownModulesDistinct();
    assert Pos(KNOWN_MODULES, "ChatScript") == 1;
    assert Pos(KNOWN_MODULES, "SIREN") == 2;
    if q < p {
      DetectedInDeclaredOrder(KNOWN_MODULES, text, q, p);
    }
  }
}
