/** When the asserts in PrintReadPropertyData of the EPICS scanner fail. */
module EpicsAsserts {
  import opened Octets
  import opened Epics

  /** Arrays whose elements have to be object identifiers. */
  predicate HoldsIds(p: Property) {
    p.id == 76 || p.id == 211
  }

  /** The k-th value of an array property fails an assert: in a walk, one that is
      not the length and not the element asked for; and where identifiers belong,
      any other value but a null in the first place. */
  predicate Breaks(walk: Walk, p: Property, k: nat, v: Value) {
    if walk.on then
      !(p.arrayIndex == 0 && v.Unsigned?)
      && (walk.index != p.arrayIndex || (HoldsIds(p) && !v.Id? && !(walk.index == 1 && v.Null?)))
    else HoldsIds(p) && !v.Id? && !(k % UINT32 == 0 && v.Null?)
  }

  predicate BreaksAt(walk: Walk, p: Property, k: nat) {
    IsArray(p.id) && k < |p.values| && Breaks(walk, p, k, p.values[k])
  }

  ghost predicate Broken(walk: Walk, p: Property, from: nat) {
    exists k: nat :: from <= k && BreaksAt(walk, p, k)
  }

  lemma ValueAsserts(c: Core, p: Property, k: nat, v: Value)
    requires !c.walk.on ==> c.walk.index == k % UINT32
    ensures var r := ArrayValue(c, p, v);
      && (r.asserted <==> c.asserted || Breaks(c.walk, p, k, v))
      && r.walk.on == c.walk.on && r.walk.index == if c.walk.on then c.walk.index else (k + 1) % UINT32
  {
    hide Counted, Kept;
    CountedAsserts(c, p);
    KeptAsserts(Counted(c, p), p, v);
    assert k % UINT32 == 0 <==> (k + 1) % UINT32 == 1;
  }

  lemma CountedAsserts(c: Core, p: Property)
    ensures var r := Counted(c, p);
      && (r.asserted <==> c.asserted || (c.walk.on && c.walk.index != p.arrayIndex))
      && r.walk.on == c.walk.on && r.walk.index == if c.walk.on then c.walk.index else (c.walk.index + 1) % UINT32
  {}

  lemma KeptAsserts(c: Core, p: Property, v: Value)
    ensures var r := Kept(c, p, v);
      && (r.asserted <==> c.asserted || (HoldsIds(p) && !v.Id? && !(c.walk.index == 1 && v.Null?)))
      && r.walk == c.walk
  {
    hide AddKey;
  }

  lemma {:induction false} ValuesAssert(c: Core, p: Property, k: nat, walk: Walk)
    requires k <= |p.values| && IsArray(p.id)
    requires c.walk.on == walk.on && c.walk.index == if walk.on then walk.index else k % UINT32
    ensures ArrayValues(c, p, p.values[k..]).asserted <==> c.asserted || Broken(walk, p, k)
    decreases |p.values| - k
  {
    hide ArrayValue;
    if k == |p.values| {
    } else {
      assert p.values[k..][0] == p.values[k] && p.values[k..][1..] == p.values[k + 1..];
      ValueAsserts(c, p, k, p.values[k]);
      ValuesAssert(ArrayValue(c, p, p.values[k]), p, k + 1, walk);
      assert BreaksAt(walk, p, k) <==> Breaks(c.walk, p, k, p.values[k]);
    }
  }

  /** Printing a property fails an assert exactly if one of its values does. */
  lemma PropertyAsserts(c: Core, p: Property)
    ensures Printed(c, p).asserted <==> c.asserted || Broken(c.walk, p, 0)
  {
    hide ArrayValues;
    var c1 := if c.walk.on then c else c.(walk := c.walk.(index := 0, length := 0));
    assert p.values[0..] == p.values;
    if IsArray(p.id) && p.values != [] {
      ValuesAssert(c1, p, 0, c.walk);
    }
  }

  ghost predicate AnyBroken(c: Core, ps: seq<Property>)
    decreases |ps|
  {
    ps != [] && (Broken(c.walk, ps[0], 0) || AnyBroken(Printed(c, ps[0]), ps[1..]))
  }

  lemma {:induction false} PropertiesAssert(c: Core, ps: seq<Property>)
    ensures PrintedAll(c, ps).asserted <==> c.asserted || AnyBroken(c, ps)
    decreases |ps|
  {
    hide Printed, Broken;
    if ps == [] {
    } else {
      PropertyAsserts(c, ps[0]);
      PropertiesAssert(Printed(c, ps[0]), ps[1..]);
    }
  }

  ghost predicate EverBroken(env: Env, c: Core, inputs: seq<Input>)
    requires Inv(c) && forall input <- inputs :: Fits(input)
    decreases |inputs|
  {
    && inputs != [] && !Finished(c)
    && (AnyBroken(Reported(c, inputs[0]), PrintedOf(c, inputs[0]))
        || (StepKeepsInv(env, c, inputs[0]); EverBroken(env, Step(env, c, inputs[0]), inputs[1..])))
  }

  lemma TurnAsserts(env: Env, c: Core, input: Input)
    requires Inv(c) && Fits(input)
    ensures Step(env, c, input).asserted <==> c.asserted || AnyBroken(Reported(c, input), PrintedOf(c, input))
  {
    hide PrintedAll, Ended, ListOfAll, AnyBroken;
    PropertiesAssert(Reported(c, input), PrintedOf(c, input));
    if c.state.NextObject? {
      NothingPrinted(env, c, input);
    } else {
      hide Step, PrintedOf;
      OtherTurnsPrint(env, c, input);
    }
  }

  lemma NothingPrinted(env: Env, c: Core, input: Input)
    requires Inv(c) && Fits(input) && c.state.NextObject?
    ensures Step(env, c, input).asserted == c.asserted
    ensures PrintedAll(Reported(c, input), PrintedOf(c, input)).asserted == c.asserted
  {
    hide NextKey, Ended;
    assert PrintedOf(c, input) == [];
  }

  /** Over a whole run the asserts fail exactly if one of the values printed on
      the way fails them; every other reply, of whatever device, passes. */
  lemma {:induction false} RunAssertsIff(env: Env, c: Core, inputs: seq<Input>)
    requires Inv(c) && forall input <- inputs :: Fits(input)
    ensures Run(env, c, inputs).asserted <==> c.asserted || EverBroken(env, c, inputs)
    decreases |inputs|
  {
    hide Step, Ended, PrintedOf, AnyBroken;
    if inputs == [] || Finished(c) {
    } else {
      StepKeepsInv(env, c, inputs[0]);
      TurnAsserts(env, c, inputs[0]);
      RunAssertsIff(env, Step(env, c, inputs[0]), inputs[1..]);
    }
  }
}
