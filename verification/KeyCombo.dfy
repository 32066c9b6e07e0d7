/** The two tests for the launch combo: one masks, one walks over the keys of the combo from the lowest bit up. */
module KeyCombo {

  type Keys = bv64

  predicate IsIn(b: Keys, keys: Keys) { keys & b != 0 }

  /** `b` is a single key of `r`. */
  predicate KeyOf(b: Keys, r: Keys) { b != 0 && b & r == b && b & (b - 1) == 0 }

  /** Key by key: every key of the combo is down or held, and at least one has just gone down. */
  ghost predicate ComboActive(combo: Keys, held: Keys, down: Keys) {
    && (forall b | KeyOf(b, combo) :: IsIn(b, down) || IsIn(b, held))
    && (exists b :: KeyOf(b, combo) && IsIn(b, down))
  }

  // ---- What the two tests compute, as masks ----

  /** The keys still required are down or held, and one of them, or one met before, is down. */
  predicate RestActive(required: Keys, held: Keys, down: Keys, any: bool) {
    required & !(held | down) == 0 && (any || required & down != 0)
  }

  function LowestKey(r: Keys): Keys { r & !(r - 1) }

  function Without(r: Keys, b: Keys): Keys { r & !b }

  /** The walk over the keys still required; `any` tells whether a key met before was down. */
  predicate Walk(required: Keys, held: Keys, down: Keys, any: bool)
    decreases NumKeys(required)
  {
    if required == 0 then any
    else
      var b := LowestKey(required);
      if IsIn(b, down) then Walk(Without(required, b), held, down, true)
      else IsIn(b, held) && Walk(Without(required, b), held, down, any)
  }

  /** Without its lowest bit a number is smaller. */
  lemma WithoutLowest(r: Keys)
    requires r != 0
    ensures Without(r, LowestKey(r)) < r
  {
  }

  /** How many keys there are; each turn of the walk takes one away. */
  function NumKeys(r: Keys): nat
    decreases r
  {
    if r == 0 then 0
    else
      WithoutLowest(r);
      1 + NumKeys(Without(r, LowestKey(r)))
  }

  lemma LowestIsKey(r: Keys)
    requires r != 0
    ensures KeyOf(LowestKey(r), r)
  {
    LowestBitIsKey(r);
  }

  lemma LowestBitIsKey(r: Keys)
    requires r != 0
    ensures KeyOf(r & !(r - 1), r)
  {
  }

  /** A single bit is either in a mask or not. */
  lemma SingleBit(b: Keys, x: Keys)
    requires b & (b - 1) == 0
    ensures x & b == 0 || x & b == b
  {
  }

  /** The masking test. */
  predicate MaskTest(combo: Keys, held: Keys, down: Keys) {
    down & combo != 0 && (held & combo) | (down & combo) == combo
  }

  lemma MaskTestIs(combo: Keys, held: Keys, down: Keys)
    ensures MaskTest(combo, held, down) <==> RestActive(combo, held, down, false)
  {
    Swapped(combo, down);
    if combo & !(held | down) == 0 {
      AllThere(combo, held, down);
    } else {
      NotAllThere(combo, held, down);
    }
  }

  lemma Swapped(a: Keys, b: Keys)
    ensures a & b == b & a
  {
  }

  lemma AllThere(combo: Keys, held: Keys, down: Keys)
    requires combo & !(held | down) == 0
    ensures (held & combo) | (down & combo) == combo
  {
  }

  lemma NotAllThere(combo: Keys, held: Keys, down: Keys)
    requires combo & !(held | down) != 0
    ensures (held & combo) | (down & combo) != combo
  {
  }

  /** The walk answers for the keys still required. */
  lemma {:induction false} WalkMeans(required: Keys, held: Keys, down: Keys, any: bool)
    ensures Walk(required, held, down, any) <==> RestActive(required, held, down, any)
    decreases NumKeys(required)
  {
    if required == 0 {
      NothingRequired(held, down, any);
    } else {
      OneTurn(required, held, down, any);
      WalkMeans(Without(required, LowestKey(required)), held, down, any);
      WalkMeans(Without(required, LowestKey(required)), held, down, true);
    }
  }

  /** What is asked of the required keys, in terms of the lowest one and the others. */
  lemma OneTurn(required: Keys, held: Keys, down: Keys, any: bool)
    requires required != 0
    ensures var b := LowestKey(required);
            RestActive(required, held, down, any) <==>
            if IsIn(b, down) then RestActive(Without(required, b), held, down, true)
            else IsIn(b, held) && RestActive(Without(required, b), held, down, any)
  {
    var b := LowestKey(required);
    LowestIsKey(required);
    if IsIn(b, down) {
      KeyIsDown(required, b, held, down, any);
    } else if IsIn(b, held) {
      KeyIsHeld(required, b, held, down, any);
    } else {
      KeyIsMissing(required, b, held, down, any);
    }
  }

  lemma NothingRequired(held: Keys, down: Keys, any: bool)
    ensures RestActive(0, held, down, any) <==> any
  {
  }

  // One turn: the key is down, or held, or the combo is incomplete.

  lemma KeyIsDown(required: Keys, b: Keys, held: Keys, down: Keys, any: bool)
    requires KeyOf(b, required) && IsIn(b, down)
    ensures RestActive(required, held, down, any) <==> RestActive(Without(required, b), held, down, true)
  {
    SingleBit(b, down);
    RestWithoutDown(required, b, held, down, any);
  }

  lemma RestWithoutDown(required: Keys, b: Keys, held: Keys, down: Keys, any: bool)
    requires b & required == b && b != 0 && down & b == b
    ensures RestActive(required, held, down, any) <==> RestActive(required & !b, held, down, true)
  {
    TakeDown(required, b, held, down);
  }

  lemma KeyIsHeld(required: Keys, b: Keys, held: Keys, down: Keys, any: bool)
    requires KeyOf(b, required) && !IsIn(b, down) && IsIn(b, held)
    ensures RestActive(required, held, down, any) <==> RestActive(Without(required, b), held, down, any)
  {
    SingleBit(b, held);
    RestWithoutHeld(required, b, held, down, any);
  }

  lemma RestWithoutHeld(required: Keys, b: Keys, held: Keys, down: Keys, any: bool)
    requires b & required == b && held & b == b && down & b == 0
    ensures RestActive(required, held, down, any) <==> RestActive(required & !b, held, down, any)
  {
    TakeHeld(required, b, held, down);
  }

  lemma KeyIsMissing(required: Keys, b: Keys, held: Keys, down: Keys, any: bool)
    requires KeyOf(b, required) && !IsIn(b, down) && !IsIn(b, held)
    ensures !RestActive(required, held, down, any)
  {
    MissKey(required, b, held, down);
  }

  lemma TakeDown(required: Keys, b: Keys, held: Keys, down: Keys)
    requires b & required == b && b != 0 && down & b == b
    ensures required & !(held | down) == (required & !b) & !(held | down) && required & down != 0
  {
  }

  lemma TakeHeld(required: Keys, b: Keys, held: Keys, down: Keys)
    requires b & required == b && held & b == b && down & b == 0
    ensures required & !(held | down) == (required & !b) & !(held | down) && required & down == (required & !b) & down
  {
  }

  lemma MissKey(required: Keys, b: Keys, held: Keys, down: Keys)
    requires b & required == b && b != 0 && held & b == 0 && down & b == 0
    ensures required & !(held | down) != 0
  {
  }

  // ---- Key by key ----

  lemma NoKeyOfNothing(b: Keys, combo: Keys, held: Keys, down: Keys)
    requires KeyOf(b, combo) && combo & !(held | down) == 0
    ensures IsIn(b, down) || IsIn(b, held)
  {
    BitIsSomewhere(b, combo, held, down);
  }

  lemma BitIsSomewhere(b: Keys, combo: Keys, held: Keys, down: Keys)
    requires b != 0 && b & combo == b && combo & !(held | down) == 0
    ensures down & b != 0 || held & b != 0
  {
  }

  lemma SomeKey(r: Keys) returns (b: Keys)
    requires r != 0
    ensures KeyOf(b, r)
  {
    b := LowestKey(r);
    LowestIsKey(r);
  }

  /** A missing key is a key of the combo that is neither down nor held. */
  lemma MissingKey(b: Keys, combo: Keys, held: Keys, down: Keys)
    requires KeyOf(b, combo & !(held | down))
    ensures KeyOf(b, combo) && !IsIn(b, down) && !IsIn(b, held)
  {
    MissingBit(b, combo, held, down);
  }

  lemma MissingBit(b: Keys, combo: Keys, held: Keys, down: Keys)
    requires b & (combo & !(held | down)) == b
    ensures b & combo == b && down & b == 0 && held & b == 0
  {
  }

  lemma CommonKey(b: Keys, combo: Keys, down: Keys)
    requires KeyOf(b, combo & down)
    ensures KeyOf(b, combo) && IsIn(b, down)
  {
    DownBit(b, combo, down);
  }

  lemma DownBit(b: Keys, combo: Keys, down: Keys)
    requires b & (combo & down) == b && b != 0
    ensures b & combo == b && down & b != 0
  {
  }

  lemma KeyDownIsInBoth(b: Keys, combo: Keys, down: Keys)
    requires KeyOf(b, combo) && IsIn(b, down)
    ensures combo & down != 0
  {
    CommonBit(b, combo, down);
  }

  lemma CommonBit(b: Keys, combo: Keys, down: Keys)
    requires b & combo == b && down & b != 0
    ensures combo & down != 0
  {
  }

  /** The masks say the same. */
  lemma MasksMeanKeys(combo: Keys, held: Keys, down: Keys)
    ensures RestActive(combo, held, down, false) <==> ComboActive(combo, held, down)
  {
    if combo & !(held | down) != 0 {
      var b := SomeKey(combo & !(held | down));
      MissingKey(b, combo, held, down);
    } else {
      forall b | KeyOf(b, combo) ensures IsIn(b, down) || IsIn(b, held) { NoKeyOfNothing(b, combo, held, down); }
      if combo & down != 0 {
        var b := SomeKey(combo & down);
        CommonKey(b, combo, down);
      } else {
        forall b | KeyOf(b, combo) ensures !IsIn(b, down) { if IsIn(b, down) { KeyDownIsInBoth(b, combo, down); } }
      }
    }
  }

  lemma MaskTestMeans(combo: Keys, held: Keys, down: Keys)
    ensures MaskTest(combo, held, down) <==> ComboActive(combo, held, down)
  {
    MaskTestIs(combo, held, down);
    MasksMeanKeys(combo, held, down);
  }

  lemma MaskTestHolds(combo: Keys, held: Keys, down: Keys)
    requires down & combo != 0 && (held & combo) | (down & combo) == combo
    ensures ComboActive(combo, held, down)
  {
    MaskTestMeans(combo, held, down);
  }

  lemma MaskTestFails(combo: Keys, held: Keys, down: Keys)
    requires down & combo == 0 || (held & combo) | (down & combo) != combo
    ensures !ComboActive(combo, held, down)
  {
    MaskTestMeans(combo, held, down);
  }

  lemma WalkAnswers(combo: Keys, held: Keys, down: Keys)
    ensures Walk(combo, held, down, false) <==> ComboActive(combo, held, down)
  {
    WalkMeans(combo, held, down, false);
    MasksMeanKeys(combo, held, down);
  }

  // ---- The two tests ----

  /** The condition of the masking test, on the combo. */
  method Masked(combo: Keys, keysHeld: Keys, keysDown: Keys) returns (pressed: bool)
    ensures pressed <==> ComboActive(combo, keysHeld, keysDown)
  {
    if keysDown & combo != 0 {
      if (keysHeld & combo) | (keysDown & combo) == combo {
        MaskTestHolds(combo, keysHeld, keysDown);
        return true;
      }
    }
    MaskTestFails(combo, keysHeld, keysDown);
    return false;
  }

  class Overlay {
    const launchCombo: Keys
    var fixHiding: bool

    constructor (combo: Keys)
      ensures launchCombo == combo && !fixHiding
    {
      launchCombo, fixHiding := combo, false;
    }

    /** The masking test; it also notes that the overlay is to be hidden properly on return. */
    method IsKeyComboPressed(keysHeld: Keys, keysDown: Keys) returns (pressed: bool)
      modifies this`fixHiding
      ensures pressed <==> ComboActive(launchCombo, keysHeld, keysDown)
      ensures fixHiding == (old(fixHiding) || pressed)
    {
      pressed := Masked(launchCombo, keysHeld, keysDown);
      if pressed {
        fixHiding := true;
      }
    }

    /** The walking test gives the same answer for every combo, the empty one included. */
    method IsKeyComboPressed2(keysDown: Keys, keysHeld: Keys) returns (pressed: bool)
      ensures pressed <==> ComboActive(launchCombo, keysHeld, keysDown)
    {
      var requiredKeys := launchCombo;
      var hasKeyDown := false;
      while requiredKeys != 0
        invariant Walk(requiredKeys, keysHeld, keysDown, hasKeyDown) == Walk(launchCombo, keysHeld, keysDown, false)
        decreases NumKeys(requiredKeys)
      {
        var keyBit := LowestKey(requiredKeys);
        if IsIn(keyBit, keysDown) {
          hasKeyDown := true;
        } else if !IsIn(keyBit, keysHeld) {
          WalkAnswers(launchCombo, keysHeld, keysDown);
          return false;
        }
        requiredKeys := Without(requiredKeys, keyBit);
      }
      WalkAnswers(launchCombo, keysHeld, keysDown);
      return hasKeyDown;
    }
  }
}
