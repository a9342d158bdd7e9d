/** Node annotations: which sizes an allocator could still serve, and under which policies. */
module Topology {
  import opened SlotSets
  import opened Devices
  import opened Spider
  import Board

  /** The rule sizes and the ring count each asks for; those of models with "092U" in their name. */
  const RULES_092U: map<nat, int> := map[2 := 2, 4 := 4]

  datatype Level = OnlyGuaranteed | AlsoRestricted

  class Topology {
    var available: seq<nat>
    var annotation: map<nat, Level>
    const rules: map<nat, int>

    constructor (available: seq<nat>, rules: map<nat, int>)
      ensures this.available == available && annotation == map[] && this.rules == rules
    {
      this.available, annotation, this.rules := available, map[], rules;
    }

    /**
     `getTopo`: a rule size is annotated "restricted" when enough rings do not conflict, "guaranteed" when there
     are rings but not enough, and not at all without rings. A failing query changes nothing.
     */
    method GetTopo(rings: map<nat, Answer>) returns (ok: bool)
      requires rules.Keys <= rings.Keys && forall size :: size in rules ==> !rings[size].Timeout?
      modifies this`annotation
      ensures ok <==> forall size :: size in rules && |available| >= size ==> rings[size].Rings?
      ensures !ok ==> annotation == old(annotation)
      ensures ok ==> annotation.Keys <= rules.Keys
      ensures ok ==> forall size :: size in rules ==> Annotates(annotation, rules[size], |available|, size, rings[size])
    {
      var built: map<nat, Level> := map[];
      var rest := rules.Keys;
      while rest != {}
        invariant rest <= rules.Keys && built.Keys <= rules.Keys - rest && annotation == old(annotation)
        invariant forall size :: size in rules.Keys - rest && |available| >= size ==> rings[size].Rings?
        invariant forall size :: size in rules.Keys - rest ==>
                  Annotates(built, rules[size], |available|, size, rings[size])
        decreases rest
      {
        var size :| size in rest;
        rest := rest - {size};
        if |available| < size {
          continue;
        }
        if !rings[size].Rings? {
          return false;
        }
        var found := rings[size].rings;
        if |found| == 0 {
          continue;
        }
        var sorted := SortRings(found);
        assert IsBest(sorted[0], found) by {
          assert forall q :: q in found ==> q in sorted;
        }
        BestIs(found, sorted[0]);
        if sorted[0].nonConflict < rules[size] {
          built := built[size := OnlyGuaranteed];
          continue;
        }
        built := built[size := AlsoRestricted];
      }
      annotation := built;
      return true;
    }
  }

  ghost predicate Annotates(annotation: map<nat, Level>, rule: int, available: nat, size: nat, answer: Answer) {
    if available < size || !answer.Rings? || answer.rings == [] then size !in annotation
    else size in annotation && annotation[size] == if Best(answer.rings) < rule then OnlyGuaranteed else AlsoRestricted
  }

  /**
   For the 092U family the annotation of a rule size tells what the spider allocator would do with the same
   available slots and the same rings: "restricted" exactly when it succeeds under the restricted policy,
   "guaranteed" exactly when it succeeds under the guaranteed policy only, and none exactly when under neither.
   */
  lemma AnnotationMatchesSpider(annotation: map<nat, Level>, available: seq<nat>, size: nat, rings: seq<Ring>)
    requires size in RULES_092U && SoundRings(rings, available, size)
    requires Annotates(annotation, RULES_092U[size], |available|, size, Rings(rings))
    ensures
      var restricted, guaranteed := Accepts(Restricted, size, rings), Accepts(Guaranteed, size, rings);
      && (size in annotation && annotation[size] == AlsoRestricted <==> restricted)
      && (size in annotation && annotation[size] == OnlyGuaranteed <==> guaranteed && !restricted)
      && (size !in annotation <==> !guaranteed && !restricted)
  {
    if rings != [] {
      RingFits(rings, available, size);
    }
  }

  /** The rules of models with "073U" and "095U" in their name. */
  const RULES_073U: map<nat, int> := map[2 := 2, 4 := 2, 8 := 4]
  const RULES_095U: map<nat, int> := map[2 := 2, 4 := 6]

  ghost predicate SaysRestricted(annotation: map<nat, Level>, size: nat) {
    size in annotation && annotation[size] == AlsoRestricted
  }

  /**
   For the other families the annotation and the allocator need not agree about the restricted policy. For models
   with "8M-073U", which get the spider allocator, they do at size 2; at size 4 exactly when the best ring count is
   not 2 or 3, and at size 8 exactly when it is at least 4 or there are no rings.
   */
  lemma WhenSpiderAgrees073U(annotation: map<nat, Level>, available: seq<nat>, size: nat, rings: seq<Ring>)
    requires size in RULES_073U && SoundRings(rings, available, size)
    requires Annotates(annotation, RULES_073U[size], |available|, size, Rings(rings))
    ensures (SaysRestricted(annotation, size) <==> Accepts(Restricted, size, rings)) <==>
            (rings == [] || size == 2 || (size == 4 && !(2 <= Best(rings) < 4)) || (size == 8 && Best(rings) >= 4))
  {
    if rings != [] {
      RingFits(rings, available, size);
    }
  }

  /** The same for the board allocator, which models with "8X-073U" and "8H-095U" get: it checks size 2 only. */
  lemma WhenBoardAgrees(annotation: map<nat, Level>, available: seq<nat>, size: nat, rings: seq<Ring>,
                        rules: map<nat, int>)
    requires rules == RULES_073U || rules == RULES_095U
    requires size in rules && SoundRings(rings, available, size)
    requires Annotates(annotation, rules[size], |available|, size, Rings(rings))
    ensures (SaysRestricted(annotation, size) <==> Board.BoardAccepts(Restricted, size, rings)) <==>
            || rings == [] || size == 2
            || Best(rings) >= if rules == RULES_095U then 6 else if size == 4 then 2 else 4
  {
    if rings != [] {
      RingFits(rings, available, size);
    }
  }

  const FOUR_SLOTS: seq<nat> := [0, 1, 2, 3]

  /** One ring of four slots of which two do not conflict. */
  const RING_OF_FOUR: seq<Ring> := [Ring([0, 1, 2, 3], 2)]

  /** That ring is called restricted for an "8M-073U" model, whose allocator refuses it under the restricted policy. */
  lemma SpiderRefusesRingOfFour(annotation: map<nat, Level>)
    requires Annotates(annotation, RULES_073U[4], |FOUR_SLOTS|, 4, Rings(RING_OF_FOUR))
    ensures SoundRings(RING_OF_FOUR, FOUR_SLOTS, 4)
    ensures SaysRestricted(annotation, 4) && !Accepts(Restricted, 4, RING_OF_FOUR)
  {
    assert IsBest(RING_OF_FOUR[0], RING_OF_FOUR);
  }

  /** It is not called restricted for an "8H-095U" model, whose allocator accepts it under the restricted policy. */
  lemma BoardAcceptsRingOfFour(annotation: map<nat, Level>)
    requires Annotates(annotation, RULES_095U[4], |FOUR_SLOTS|, 4, Rings(RING_OF_FOUR))
    ensures SoundRings(RING_OF_FOUR, FOUR_SLOTS, 4)
    ensures !SaysRestricted(annotation, 4) && Board.BoardAccepts(Restricted, 4, RING_OF_FOUR)
  {
    assert IsBest(RING_OF_FOUR[0], RING_OF_FOUR);
  }

  /** A ring that was found needs no more slots than there are. */
  lemma RingFits(rings: seq<Ring>, available: seq<nat>, size: nat)
    requires rings != [] && SoundRings(rings, available, size)
    ensures size <= |available|
  {
    var ring := rings[0];
    assert ring in rings;
    DistinctSize(ring.ordinals);
    assert Elements(ring.ordinals) <= Elements(available);
    SubsetSize(Elements(ring.ordinals), Elements(available));
    ElementsBound(available);
  }
}
