/** Spreading env-share allocations over the cards: the preferred answer, and what following it keeps. */
module EnvShare {
  import opened Bytes
  import opened Annotation
  import opened Options
  import opened SlotSets

  type Id = seq<byte>

  const SEPARATOR: seq<byte> := [MINUS, UNDERSCORE, MINUS]

  // ----- device IDs -----

  /** `uuid-_-index` */
  function MakeId(card: Id, index: int): Id { card + SEPARATOR + IntText(index) }

  /** `strings.Split` on the three-byte separator; `piece` holds what has been read of the current piece. */
  function SplitId(s: seq<byte>, piece: seq<byte>): (parts: seq<seq<byte>>)
    ensures parts != []
    decreases |s|
  {
    if s == [] then [piece]
    else if 3 <= |s| && s[..3] == SEPARATOR then [piece] + SplitId(s[3..], [])
    else SplitId(s[1..], piece + [s[0]])
  }

  function Card(id: Id): Id { SplitId(id, [])[0] }

  function Index(id: Id): Option<int> { var parts := SplitId(id, []); Atoi(parts[|parts| - 1]) }

  lemma {:induction false} SplitPlain(t: seq<byte>, piece: seq<byte>)
    requires Lacks(t, UNDERSCORE)
    ensures SplitId(t, piece) == [piece + t]
    decreases |t|
  {
    if t == [] {
      assert piece + t == piece;
    } else {
      assert 3 <= |t| ==> t[..3][1] == t[1];
      SplitPlain(t[1..], piece + [t[0]]);
      assert piece + [t[0]] + t[1..] == piece + t;
    }
  }

  lemma {:induction false} SplitMade(u: seq<byte>, t: seq<byte>, piece: seq<byte>)
    requires Lacks(u, UNDERSCORE) && Lacks(t, UNDERSCORE)
    ensures SplitId(u + SEPARATOR + t, piece) == [piece + u, t]
    decreases |u|
  {
    var s := u + SEPARATOR + t;
    if u == [] {
      assert s[..3] == SEPARATOR && s[3..] == t && piece + u == piece;
      SplitPlain(t, []);
      assert [] + t == t;
    } else {
      assert s[..3][1] == s[1] != UNDERSCORE;
      assert s[1..] == u[1..] + SEPARATOR + t;
      SplitMade(u[1..], t, piece + [u[0]]);
      assert piece + [u[0]] + u[1..] == piece + u;
    }
  }

  /** An ID made from a UUID without underscores is taken apart into that UUID and index. */
  lemma IdRoundTrip(card: Id, index: int)
    requires Lacks(card, UNDERSCORE) && INT64_MIN <= index <= INT64_MAX
    ensures Card(MakeId(card, index)) == card && Index(MakeId(card, index)) == Some(index)
  {
    IntTextLacksUnderscore(index);
    SplitMade(card, IntText(index), []);
    assert [] + card == card;
    AtoiUndoesPrinting(index);
  }

  /** An ID is the card's UUID, the three bytes "-_-", and the index. */
  lemma IdText(card: Id, index: int)
    ensures MakeId(card, index) == card + [0x2D, 0x5F, 0x2D] + IntText(index)
  {
  }

  /** The pieces with "-_-" between each two. */
  function JoinId(pieces: seq<Id>): Id
    requires pieces != []
  {
    if |pieces| == 1 then pieces[0] else pieces[0] + [0x2D, 0x5F, 0x2D] + JoinId(pieces[1..])
  }

  lemma SplitFirst(u: seq<byte>, rest: seq<byte>)
    requires Lacks(u, UNDERSCORE)
    ensures SplitId(u + [0x2D, 0x5F, 0x2D] + rest, []) == [u] + SplitId(rest, [])
  {
    SplitOff(u, rest, []);
    assert [] + u == u;
  }

  lemma {:induction false} SplitOff(u: seq<byte>, rest: seq<byte>, piece: seq<byte>)
    requires Lacks(u, UNDERSCORE)
    ensures SplitId(u + [0x2D, 0x5F, 0x2D] + rest, piece) == [piece + u] + SplitId(rest, [])
    decreases |u|
  {
    var s := u + [0x2D, 0x5F, 0x2D] + rest;
    if u == [] {
      assert s[..3] == SEPARATOR && s[3..] == rest && piece + u == piece;
    } else {
      assert s[..3][1] == s[1] != UNDERSCORE;
      assert s[1..] == u[1..] + [0x2D, 0x5F, 0x2D] + rest;
      SplitOff(u[1..], rest, piece + [u[0]]);
      assert piece + [u[0]] + u[1..] == piece + u;
    }
  }

  lemma {:induction false} SplitUndoesJoinId(pieces: seq<Id>)
    requires pieces != [] && forall i :: 0 <= i < |pieces| ==> Lacks(pieces[i], UNDERSCORE)
    ensures SplitId(JoinId(pieces), []) == pieces
    decreases |pieces|
  {
    hide SplitId, Lacks;
    if |pieces| == 1 {
      SplitPlain(pieces[0], []);
      assert [] + pieces[0] == pieces[0];
    } else {
      SplitUndoesJoinId(pieces[1..]);
      SplitFirst(pieces[0], JoinId(pieces[1..]));
      assert pieces == [pieces[0]] + pieces[1..];
    }
  }

  /** Of an ID of several pieces, the first is the card and the last is read as the index. */
  lemma CardAndIndex(pieces: seq<Id>)
    requires pieces != [] && forall i :: 0 <= i < |pieces| ==> Lacks(pieces[i], UNDERSCORE)
    ensures Card(JoinId(pieces)) == pieces[0] && Index(JoinId(pieces)) == Atoi(pieces[|pieces| - 1])
  {
    hide SplitId, JoinId, Atoi, Lacks;
    SplitUndoesJoinId(pieces);
  }

  /** `generateFakeDevs` in env-share mode: `num` virtual devices of one card, numbered from 1. */
  method GenerateFakeDevs(card: Id, num: int) returns (devs: seq<Id>)
    ensures |devs| == if num < 0 then 0 else num
    ensures forall i :: 0 <= i < |devs| ==> devs[i] == MakeId(card, i + 1)
  {
    devs := [];
    var i := 0;
    while i < num
      invariant 0 <= i && (i <= num || i == 0) && |devs| == i
      invariant forall k :: 0 <= k < i ==> devs[k] == MakeId(card, k + 1)
    {
      devs := devs + [MakeId(card, i + 1)];
      i := i + 1;
    }
  }

  // ----- the preferred answer -----

  /** The indices of a card in a list of IDs, in order. */
  ghost function Indices(ids: seq<Id>, card: Id): seq<int> {
    if ids == [] then []
    else
      var last := |ids| - 1;
      Indices(ids[..last], card) +
        if Card(ids[last]) == card && Index(ids[last]).Some? then [Index(ids[last]).value] else []
  }

  ghost function Cards(ids: seq<Id>): set<Id> { set id | id in ids :: Card(id) }

  ghost predicate IsLeast(x: int, s: seq<int>) { x in s && forall y :: y in s ==> x <= y }

  /** Distinct cards, those with the most free indices, and the least free index of each. */
  ghost predicate Spreads(available: seq<Id>, chosen: seq<Id>, ids: seq<Id>) {
    && |chosen| == |ids| && Distinct(chosen)
    && (forall i :: 0 <= i < |chosen| ==> chosen[i] in Cards(available) && IsLeastOf(available, chosen[i], ids[i]))
    && (forall i, c :: 0 <= i < |chosen| && c in Cards(available) && c !in chosen ==>
          |Indices(available, c)| <= |Indices(available, chosen[i])|)
  }

  ghost predicate IsLeastOf(available: seq<Id>, card: Id, id: Id) {
    exists x :: IsLeast(x, Indices(available, card)) && id == MakeId(card, x)
  }

  datatype Free = Free(card: Id, indices: seq<int>)

  /** `free` lists the indices of every card among `ids`. */
  ghost predicate Grouped(free: map<Id, seq<int>>, ids: seq<Id>) {
    free.Keys == Cards(ids) && forall c :: c in free ==> free[c] == Indices(ids, c) && free[c] != []
  }

  lemma {:induction false} OtherCards(ids: seq<Id>, card: Id)
    requires card !in Cards(ids)
    ensures Indices(ids, card) == []
  {
    if ids != [] {
      var last := |ids| - 1;
      assert Card(ids[last]) in Cards(ids);
      assert Cards(ids[..last]) <= Cards(ids);
      OtherCards(ids[..last], card);
    }
  }

  lemma IndicesStep(ids: seq<Id>, id: Id, card: Id)
    requires Index(id).Some?
    ensures Indices(ids + [id], card) == Indices(ids, card) + if Card(id) == card then [Index(id).value] else []
  {
    assert (ids + [id])[..|ids|] == ids;
  }

  lemma GroupedStep(free: map<Id, seq<int>>, ids: seq<Id>, id: Id)
    requires Grouped(free, ids) && Index(id).Some?
    ensures Grouped(free[Card(id) := (if Card(id) in free then free[Card(id)] else []) + [Index(id).value]], ids + [id])
  {
    hide Indices, Card, Index;
    assert Cards(ids + [id]) == Cards(ids) + {Card(id)};
    if Card(id) !in free {
      OtherCards(ids, Card(id));
    }
    forall c | c in Cards(ids + [id])
      ensures Indices(ids + [id], c) == Indices(ids, c) + if Card(id) == c then [Index(id).value] else []
    {
      IndicesStep(ids, id, c);
    }
  }

  /** The free indices by card, as they come; an index that is no number ends it. */
  method ByCard(available: seq<Id>) returns (ok: bool, free: map<Id, seq<int>>)
    ensures ok <==> forall id :: id in available ==> Index(id).Some?
    ensures ok ==> Grouped(free, available)
  {
    hide Grouped, Index, Card;
    free := map[];
    assert Grouped(free, []) by { NothingGrouped(); }
    assert available[..0] == [];
    for i := 0 to |available|
      invariant forall id :: id in available[..i] ==> Index(id).Some?
      invariant Grouped(free, available[..i])
    {
      var id := available[i];
      if Index(id).None? {
        assert id in available;
        return false, free;
      }
      GroupedStep(free, available[..i], id);
      assert available[..i + 1] == available[..i] + [id];
      free := free[Card(id) := (if Card(id) in free then free[Card(id)] else []) + [Index(id).value]];
    }
    assert available[..|available|] == available;
    ok := true;
  }

  lemma NothingGrouped()
    ensures Grouped(map[], [])
  {
  }

  ghost predicate IsEntry(f: Free, free: map<Id, seq<int>>) {
    f.card in free && |f.indices| == |free[f.card]| && f.indices != [] && IsLeast(f.indices[0], free[f.card])
  }

  ghost predicate Lists(es: seq<Free>, card: Id) { exists i :: 0 <= i < |es| && es[i].card == card }

  /** One entry a card. */
  ghost predicate Entries(es: seq<Free>, free: map<Id, seq<int>>) {
    && (forall i :: 0 <= i < |es| ==> IsEntry(es[i], free))
    && (forall i, j :: 0 <= i < j < |es| ==> es[i].card != es[j].card)
  }

  ghost predicate ByCount(es: seq<Free>) { forall i, j :: 0 <= i < j < |es| ==> |es[i].indices| >= |es[j].indices| }

  /** The cards with sorted indices, in no particular order. */
  method SortedCards(free: map<Id, seq<int>>) returns (es: seq<Free>)
    requires forall c :: c in free ==> free[c] != []
    ensures |es| == |free.Keys| && Entries(es, free)
    ensures forall c :: c in free ==> Lists(es, c)
  {
    es := [];
    var rest := free.Keys;
    while rest != {}
      invariant rest <= free.Keys && |es| + |rest| == |free.Keys|
      invariant Entries(es, free)
      invariant forall i :: 0 <= i < |es| ==> es[i].card !in rest
      invariant forall c :: c in free && c !in rest ==> Lists(es, c)
      decreases rest
    {
      var c :| c in rest;
      var sorted, _ := SortBy(free[c], (x: int) => x);
      SortedLeast(sorted, free[c]);
      rest := rest - {c};
      ListsMore(es, Free(c, sorted));
      es := es + [Free(c, sorted)];
    }
  }

  lemma SortedLeast(sorted: seq<int>, s: seq<int>)
    requires multiset(sorted) == multiset(s) && Ranked(sorted, (x: int) => x) && s != []
    ensures |sorted| == |s| && IsLeast(sorted[0], s)
  {
    assert |multiset(sorted)| == |multiset(s)|;
    PermutationKeepsMembers(sorted, s);
    forall y | y in s
      ensures sorted[0] <= y
    {
      var k :| 0 <= k < |sorted| && sorted[k] == y;
      assert k > 0 ==> ((x: int) => x)(sorted[0]) <= ((x: int) => x)(sorted[k]);
    }
  }

  lemma ListsMore(es: seq<Free>, e: Free)
    ensures Lists(es + [e], e.card)
    ensures forall c :: Lists(es, c) ==> Lists(es + [e], c)
  {
    assert (es + [e])[|es|] == e;
    forall c | Lists(es, c)
      ensures Lists(es + [e], c)
    {
      var i :| 0 <= i < |es| && es[i].card == c;
      assert (es + [e])[i].card == c;
    }
  }

  /** The cards with sorted indices, those with the most free ones first. */
  method MostFreeFirst(free: map<Id, seq<int>>) returns (cards: seq<Free>)
    requires forall c :: c in free ==> free[c] != []
    ensures |cards| == |free.Keys| && Entries(cards, free) && ByCount(cards)
    ensures forall c :: c in free ==> Lists(cards, c)
  {
    hide Entries, Lists, ByCount;
    var es := SortedCards(free);
    ghost var places;
    cards, places := SortBy(es, (f: Free) => -|f.indices|);
    PermutedEntries(places, es, cards, free);
  }

  lemma PermutedEntries(places: seq<nat>, es: seq<Free>, cards: seq<Free>, free: map<Id, seq<int>>)
    requires Permutes(places, es, cards) && multiset(cards) == multiset(es)
    requires Ranked(cards, (f: Free) => -|f.indices|) && Entries(es, free)
    ensures Entries(cards, free) && ByCount(cards)
    ensures forall c :: Lists(es, c) ==> Lists(cards, c)
  {
    hide IsEntry, Ranked;
    PermutationKeepsMembers(cards, es);
    forall c | Lists(es, c)
      ensures Lists(cards, c)
    {
      var i :| 0 <= i < |es| && es[i].card == c;
      assert es[i] in cards;
      var j :| 0 <= j < |cards| && cards[j] == es[i];
      assert cards[j].card == c;
    }
    CountsFall(cards);
  }

  lemma CountsFall(cards: seq<Free>)
    requires Ranked(cards, (f: Free) => -|f.indices|)
    ensures ByCount(cards)
  {
    forall i, j | 0 <= i < j < |cards|
      ensures |cards[i].indices| >= |cards[j].indices|
    {
      assert ((f: Free) => -|f.indices|)(cards[i]) <= ((f: Free) => -|f.indices|)(cards[j]);
    }
  }

  /** The least index of the first cards of the list. */
  ghost predicate TakesFirst(es: seq<Free>, free: map<Id, seq<int>>, ids: seq<Id>)
    requires Entries(es, free)
  {
    |ids| <= |es| && forall k :: 0 <= k < |ids| ==> ids[k] == MakeId(es[k].card, es[k].indices[0])
  }

  /** `getPreferredEnvShareDeviceID` */
  method GetPreferredEnvShareDeviceID(available: seq<Id>, size: int) returns (ok: bool, ids: seq<Id>)
    requires size == 1 ==> available != []
    ensures ok <==> (forall id :: id in available ==> Index(id).Some?) && size <= |Cards(available)|
    ensures ok ==> |ids| == (if size < 0 then 0 else size) && exists chosen :: Spreads(available, chosen, ids)
  {
    hide Spreads, ByCount, Card, Index, Lists, MakeId;
    ids := [];
    var free;
    ok, free := ByCard(available);
    if !ok {
      return false, [];
    }
    var es := MostFreeFirst(free);
    if size == 1 {
      assert Card(available[0]) in free;
      ids := [MakeId(es[0].card, es[0].indices[0])];
      ChosenSpread(available, free, es, ids);
      return true, ids;
    }
    if size > |es| {
      return false, [];
    }
    var i := 0;
    while i < size
      invariant 0 <= i && (i <= size || i == 0) && |ids| == i
      invariant TakesFirst(es, free, ids)
    {
      ids := ids + [MakeId(es[i].card, es[i].indices[0])];
      i := i + 1;
    }
    ChosenSpread(available, free, es, ids);
    return true, ids;
  }

  lemma ChosenSpread(available: seq<Id>, free: map<Id, seq<int>>, es: seq<Free>, ids: seq<Id>)
    requires Grouped(free, available) && Entries(es, free) && ByCount(es) && TakesFirst(es, free, ids)
    requires forall c :: c in free ==> Lists(es, c)
    ensures exists chosen :: Spreads(available, chosen, ids)
  {
    hide Indices, MakeId, Card, Cards, Index, IsLeast;
    var chosen := seq(|ids|, k requires 0 <= k < |ids| => es[k].card);
    forall i | 0 <= i < |chosen|
      ensures chosen[i] in Cards(available) && IsLeastOf(available, chosen[i], ids[i])
    {
      assert IsEntry(es[i], free);
      assert IsLeast(es[i].indices[0], Indices(available, chosen[i]));
    }
    forall i, c | 0 <= i < |chosen| && c in Cards(available) && c !in chosen
      ensures |Indices(available, c)| <= |Indices(available, chosen[i])|
    {
      LaterHasFewer(available, free, es, chosen, i, c);
    }
    assert Spreads(available, chosen, ids);
  }

  lemma LaterHasFewer(available: seq<Id>, free: map<Id, seq<int>>, es: seq<Free>, chosen: seq<Id>, i: nat, c: Id)
    requires Grouped(free, available) && Entries(es, free) && ByCount(es) && Lists(es, c)
    requires i < |chosen| <= |es| && (forall k :: 0 <= k < |chosen| ==> chosen[k] == es[k].card) && c !in chosen
    ensures |Indices(available, c)| <= |Indices(available, chosen[i])|
  {
    hide Indices, Card, Cards, IsLeast;
    var j :| 0 <= j < |es| && es[j].card == c;
    assert forall k :: 0 <= k < |chosen| ==> es[k].card in chosen;
    assert IsEntry(es[i], free) && IsEntry(es[j], free);
  }

  // ----- runs that follow the answer -----

  /** Every ID was made from a UUID without underscores. */
  ghost predicate Made(ids: set<Id>) {
    forall id :: id in ids ==>
      Index(id).Some? && Lacks(Card(id), UNDERSCORE) && id == MakeId(Card(id), Index(id).value)
  }

  ghost function OfCard(ids: set<Id>, card: Id): set<Id> { set id | id in ids && Card(id) == card }

  /** The indices of a card stand for its IDs, one each. */
  ghost predicate Counted(ids: seq<Id>, card: Id) {
    && |Indices(ids, card)| == |OfCard(Elements(ids), card)|
    && (forall x :: x in Indices(ids, card) ==> HasIndex(ids, card, x))
    && (forall id :: id in ids && Card(id) == card ==> Index(id).Some? && Index(id).value in Indices(ids, card))
  }

  ghost predicate HasIndex(ids: seq<Id>, card: Id, x: int) {
    exists id :: id in ids && Card(id) == card && Index(id) == Some(x)
  }

  lemma {:induction false} IndicesCount(ids: seq<Id>, card: Id)
    requires Distinct(ids) && forall id :: id in ids ==> Index(id).Some?
    ensures Counted(ids, card)
  {
    hide Counted, Card, Index;
    if ids == [] {
      CountedNone(card);
    } else {
      var last := |ids| - 1;
      IndicesCount(ids[..last], card);
      CountedStep(ids[..last], ids[last], card);
      assert ids == ids[..last] + [ids[last]];
    }
  }

  lemma CountedNone(card: Id)
    ensures Counted([], card)
  {
  }

  lemma CountedStep(front: seq<Id>, id: Id, card: Id)
    requires Counted(front, card) && id !in front && Index(id).Some?
    ensures Counted(front + [id], card)
  {
    hide Indices, Card, Index;
    var ids := front + [id];
    IndicesStep(front, id, card);
    assert Elements(ids) == Elements(front) + {id};
    if Card(id) == card {
      assert OfCard(Elements(ids), card) == OfCard(Elements(front), card) + {id};
    } else {
      assert OfCard(Elements(ids), card) == OfCard(Elements(front), card);
    }
    forall x | x in Indices(ids, card)
      ensures HasIndex(ids, card, x)
    {
      if x in Indices(front, card) {
        assert HasIndex(front, card, x);
        var other :| other in front && Card(other) == card && Index(other) == Some(x);
        assert other in ids;
      } else {
        assert id in ids;
      }
    }
  }

  /** The answer, seen on the IDs: available, on distinct cards, the least of its card, the cards with most free. */
  ghost predicate IsPreferred(available: set<Id>, ids: seq<Id>) {
    && (forall i :: 0 <= i < |ids| ==> ids[i] in available)
    && (forall i, j :: 0 <= i < j < |ids| ==> Card(ids[i]) != Card(ids[j]))
    && (forall i, id :: 0 <= i < |ids| && id in available && Card(id) == Card(ids[i]) ==> LeqIndex(ids[i], id))
    && (forall i, id :: 0 <= i < |ids| && id in available && IsOther(ids, Card(id)) ==>
          |OfCard(available, Card(id))| <= |OfCard(available, Card(ids[i]))|)
  }

  ghost predicate LeqIndex(a: Id, b: Id) { Index(a).Some? && Index(b).Some? && Index(a).value <= Index(b).value }

  ghost predicate IsOther(ids: seq<Id>, card: Id) { forall i :: 0 <= i < |ids| ==> Card(ids[i]) != card }

  /** On well-made IDs the answer of the method is a preferred one; in particular it is a subset of the available. */
  lemma AnswerIsPreferred(available: seq<Id>, ids: seq<Id>, chosen: seq<Id>)
    requires Distinct(available) && Made(Elements(available)) && Spreads(available, chosen, ids)
    ensures IsPreferred(Elements(available), ids)
  {
    hide Card, Index, MakeId, Indices, Counted, IsLeastOf;
    var all := Elements(available);
    assert forall id :: id in available ==> id in all;
    forall i | 0 <= i < |ids|
      ensures IsFirst(all, chosen[i], ids[i])
    {
      LeastIsFirst(available, chosen[i], ids[i]);
    }
    forall i, id | 0 <= i < |ids| && id in all && IsOther(ids, Card(id))
      ensures |OfCard(all, Card(id))| <= |OfCard(all, Card(ids[i]))|
    {
      IndicesCount(available, chosen[i]);
      IndicesCount(available, Card(id));
      CountedSize(available, chosen[i]);
      CountedSize(available, Card(id));
      assert Card(id) in Cards(available);
      assert Card(id) !in chosen;
    }
  }

  ghost predicate IsFirst(all: set<Id>, card: Id, id: Id) {
    id in all && Card(id) == card && forall other :: other in all && Card(other) == card ==> LeqIndex(id, other)
  }

  lemma CountedSize(ids: seq<Id>, card: Id)
    requires Counted(ids, card)
    ensures |Indices(ids, card)| == |OfCard(Elements(ids), card)|
  {
  }

  lemma LeastIsFirst(available: seq<Id>, card: Id, id: Id)
    requires Distinct(available) && Made(Elements(available)) && IsLeastOf(available, card, id)
    ensures IsFirst(Elements(available), card, id)
  {
    hide Card, Index, MakeId, Indices;
    assert forall other :: other in available ==> other in Elements(available);
    IndicesCount(available, card);
    var x :| IsLeast(x, Indices(available, card)) && id == MakeId(card, x);
    assert HasIndex(available, card, x);
    var it :| it in available && Card(it) == card && Index(it) == Some(x);
    assert it == id;
  }

  /** The free counts of the cards differ by at most one. */
  ghost predicate Balanced(available: set<Id>, cards: set<Id>) {
    forall c, d :: c in cards && d in cards ==> |OfCard(available, c)| <= |OfCard(available, d)| + 1
  }

  /** An answer takes one ID of each of its cards and none of another. */
  lemma CountAfter(available: set<Id>, ids: seq<Id>, card: Id)
    requires IsPreferred(available, ids)
    ensures |OfCard(available - Elements(ids), card)| ==
              |OfCard(available, card)| - if IsOther(ids, card) then 0 else 1
  {
    hide IsPreferred, OfCard;
    if IsOther(ids, card) {
      NoneTaken(available, ids, card);
    } else {
      var i: nat :| i < |ids| && Card(ids[i]) == card;
      OneTaken(available, ids, card, i);
    }
  }

  lemma NoneTaken(available: set<Id>, ids: seq<Id>, card: Id)
    requires IsOther(ids, card)
    ensures OfCard(available - Elements(ids), card) == OfCard(available, card)
  {
    hide Card;
  }

  lemma OneTaken(available: set<Id>, ids: seq<Id>, card: Id, i: nat)
    requires IsPreferred(available, ids) && i < |ids| && Card(ids[i]) == card
    ensures ids[i] in OfCard(available, card)
    ensures OfCard(available - Elements(ids), card) == OfCard(available, card) - {ids[i]}
  {
    hide Card, LeqIndex, IsOther;
    assert forall j :: 0 <= j < |ids| && j != i ==> Card(ids[j]) != card;
  }

  /** A card left out had no more free than a card taken from. */
  lemma LeftOutHadFewer(available: set<Id>, ids: seq<Id>, out: Id, taken: Id)
    requires IsPreferred(available, ids) && IsOther(ids, out) && !IsOther(ids, taken)
    ensures |OfCard(available, out)| <= |OfCard(available, taken)|
  {
    hide Card, LeqIndex;
    var i: nat :| i < |ids| && Card(ids[i]) == taken;
    if OfCard(available, out) != {} {
      var id :| id in OfCard(available, out);
      assert id in available && IsOther(ids, Card(id));
    }
  }

  /** Taking a preferred answer keeps the cards balanced. */
  lemma PreferredKeepsBalance(available: set<Id>, cards: set<Id>, ids: seq<Id>)
    requires Balanced(available, cards) && IsPreferred(available, ids)
    ensures Balanced(available - Elements(ids), cards)
  {
    hide OfCard, IsPreferred, IsOther, Elements;
    var after := available - Elements(ids);
    forall c, d | c in cards && d in cards
      ensures |OfCard(after, c)| <= |OfCard(after, d)| + 1
    {
      CountAfter(available, ids, c);
      CountAfter(available, ids, d);
      if IsOther(ids, c) && !IsOther(ids, d) {
        LeftOutHadFewer(available, ids, c, d);
      }
    }
  }

  /** What the kubelet sees of one answer: some listing of the free IDs, answered as the method promises. */
  ghost predicate Answered(free: set<Id>, ids: seq<Id>) {
    exists available, chosen :: Distinct(available) && Elements(available) == free && Spreads(available, chosen, ids)
  }

  /** Allocations that follow the preferred answers, with nothing given back. */
  ghost predicate Follows(states: seq<set<Id>>, answers: seq<seq<Id>>) {
    |states| == |answers| + 1 &&
    forall k :: 0 <= k < |answers| ==> FollowsAt(states, answers, k)
  }

  ghost predicate FollowsAt(states: seq<set<Id>>, answers: seq<seq<Id>>, k: nat)
    requires k < |answers| && |states| == |answers| + 1
  {
    Answered(states[k], answers[k]) && states[k + 1] == states[k] - Elements(answers[k])
  }

  /** The virtual devices `generateFakeDevs` makes: `num` of every card. */
  ghost function FakeDevs(cards: set<Id>, num: nat): set<Id> {
    set card, index | card in cards && 1 <= index <= num :: MakeId(card, index)
  }

  /** What `GenerateFakeDevs` returns for one card, as a set. */
  lemma GeneratedDevs(card: Id, devs: seq<Id>)
    requires forall i :: 0 <= i < |devs| ==> devs[i] == MakeId(card, i + 1)
    ensures Elements(devs) == FakeDevs({card}, |devs|)
  {
    hide MakeId;
    forall index | 1 <= index <= |devs|
      ensures MakeId(card, index) in devs
    {
      assert devs[index - 1] == MakeId(card, index);
    }
  }

  lemma MoreFakeDevs(cards: set<Id>, card: Id, num: nat)
    ensures FakeDevs(cards + {card}, num) == FakeDevs(cards, num) + FakeDevs({card}, num)
  {
    hide MakeId;
  }

  /** The env-share devices that `GetDevices` lists: those of every card; a number below 1 is fatal there. */
  method GetDevices(cards: seq<Id>, num: int) returns (devs: seq<Id>)
    requires num >= 1
    ensures Elements(devs) == FakeDevs(Elements(cards), num)
  {
    hide MakeId, FakeDevs;
    devs := [];
    assert Elements(devs) == FakeDevs(Elements([]), num) by { NoFakeDevs(num); }
    assert cards[..0] == [];
    for i := 0 to |cards|
      invariant Elements(devs) == FakeDevs(Elements(cards[..i]), num)
    {
      var more := GenerateFakeDevs(cards[i], num);
      GeneratedDevs(cards[i], more);
      MoreFakeDevs(Elements(cards[..i]), cards[i], num);
      assert Elements(cards[..i + 1]) == Elements(cards[..i]) + {cards[i]} by {
        assert cards[..i + 1] == cards[..i] + [cards[i]];
      }
      assert Elements(devs + more) == Elements(devs) + Elements(more);
      devs := devs + more;
    }
    assert cards[..|cards|] == cards;
  }

  lemma NoFakeDevs(num: nat)
    ensures FakeDevs(Elements([]), num) == {}
  {
  }

  ghost predicate Plain(cards: set<Id>) { forall c :: c in cards ==> Lacks(c, UNDERSCORE) }

  lemma FakeDevsMade(cards: set<Id>, num: nat)
    requires Plain(cards) && num <= INT64_MAX
    ensures Made(FakeDevs(cards, num))
  {
    hide MakeId, Card, Index;
    forall id | id in FakeDevs(cards, num)
      ensures Index(id).Some? && Lacks(Card(id), UNDERSCORE) && id == MakeId(Card(id), Index(id).value)
    {
      var card, index :| card in cards && 1 <= index <= num && id == MakeId(card, index);
      IdRoundTrip(card, index);
    }
  }

  /** Every card starts with the same count. */
  lemma {:induction false} FakeDevsOfCard(cards: set<Id>, num: nat, card: Id)
    requires Plain(cards) && num <= INT64_MAX && card in cards
    ensures |OfCard(FakeDevs(cards, num), card)| == num
  {
    hide MakeId, Card, Index;
    var all := OfCard(FakeDevs(cards, num), card);
    if num == 0 {
      assert all == {};
    } else {
      var less := OfCard(FakeDevs(cards, num - 1), card);
      FakeDevsOfCard(cards, num - 1, card);
      var id := MakeId(card, num);
      IdRoundTrip(card, num);
      if id in less {
        var c, k :| c in cards && 1 <= k <= num - 1 && id == MakeId(c, k);
        IdRoundTrip(c, k);
      }
      assert all == less + {id} by { OneMore(cards, num, card); }
    }
  }

  lemma OneMore(cards: set<Id>, num: nat, card: Id)
    requires Plain(cards) && 0 < num <= INT64_MAX && card in cards
    ensures OfCard(FakeDevs(cards, num), card) == OfCard(FakeDevs(cards, num - 1), card) + {MakeId(card, num)}
  {
    hide MakeId, Card, Index;
    IdRoundTrip(card, num);
    forall id | id in OfCard(FakeDevs(cards, num), card)
      ensures id in OfCard(FakeDevs(cards, num - 1), card) + {MakeId(card, num)}
    {
      var c, k :| c in cards && 1 <= k <= num && id == MakeId(c, k);
      IdRoundTrip(c, k);
    }
  }

  /**
   From fresh cards of equal size, every run that follows the preferred answers keeps the cards' free
   counts within one of each other, and answers only with free IDs on distinct, fullest cards.
   */
  lemma {:induction false} RunKeepsBalance(states: seq<set<Id>>, answers: seq<seq<Id>>, cards: set<Id>, num: nat,
                                           k: nat)
    requires Follows(states, answers) && k < |states|
    requires Plain(cards) && num <= INT64_MAX && states[0] == FakeDevs(cards, num)
    ensures Made(states[k]) && Balanced(states[k], cards)
    ensures k < |answers| ==> IsPreferred(states[k], answers[k])
  {
    hide Made, Balanced, Plain, IsPreferred, Answered, FakeDevs;
    if k == 0 {
      FreshBalanced(cards, num);
    } else {
      RunKeepsBalance(states, answers, cards, num, k - 1);
      assert FollowsAt(states, answers, k - 1);
      PreferredKeepsBalance(states[k - 1], cards, answers[k - 1]);
      FewerMade(states[k - 1], states[k]);
    }
    if k < |answers| {
      assert FollowsAt(states, answers, k);
      AnsweredPreferred(states[k], answers[k]);
    }
  }

  lemma FreshBalanced(cards: set<Id>, num: nat)
    requires Plain(cards) && num <= INT64_MAX
    ensures Made(FakeDevs(cards, num)) && Balanced(FakeDevs(cards, num), cards)
  {
    hide Made, FakeDevs, OfCard;
    FakeDevsMade(cards, num);
    forall c | c in cards
      ensures |OfCard(FakeDevs(cards, num), c)| == num
    {
      FakeDevsOfCard(cards, num, c);
    }
  }

  lemma FewerMade(ids: set<Id>, fewer: set<Id>)
    requires Made(ids) && fewer <= ids
    ensures Made(fewer)
  {
  }

  lemma AnsweredPreferred(free: set<Id>, ids: seq<Id>)
    requires Answered(free, ids) && Made(free)
    ensures IsPreferred(free, ids)
  {
    hide Made, IsPreferred, Spreads;
    var available, chosen :| Distinct(available) && Elements(available) == free && Spreads(available, chosen, ids);
    AnswerIsPreferred(available, ids, chosen);
  }
}
