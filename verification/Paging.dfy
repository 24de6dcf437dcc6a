/** Pages of a list, and the walk a client makes by following the cursor of each page. */
module Paging {
  import opened Wrappers
  import opened Cursors
  import EventIds
  import JsonText

  datatype Page<T> = Page(items: seq<T>, next: Option<string>) | Refused(error: Decoded)

  /** What a listing was asked for under; the cursor's text is only ever produced and read through these. */
  datatype Listing = Listing(kind: string, version: string, sign: Sign, lenient: Lenient)

  function Issue(l: Listing, offset: nat): string {
    EncodeCursor(l.kind, offset, l.version, l.sign)
  }

  function GetPage<T>(items: seq<T>, cursor: Option<string>, limit: nat, l: Listing): Page<T> {
    if cursor.None? || cursor.value == "" then PageAt(items, Offset(0), limit, l)
    else PageAt(items, DecodeCursor(cursor.value, l.kind, l.version, l.sign, l.lenient), limit, l)
  }

  function PageAt<T>(items: seq<T>, decoded: Decoded, limit: nat, l: Listing): Page<T> {
    if !decoded.Offset? then Refused(decoded)
    else if decoded.offset > |items| then Refused(InvalidCursor)
    else
      var end := if decoded.offset + limit < |items| then decoded.offset + limit else |items|;
      Page(items[decoded.offset..end], if end < |items| then Some(Issue(l, end)) else None)
  }

  /** A cursor that is handed out but will be refused: past the last offset accepted, or too long. */
  predicate Jams(l: Listing, offset: nat) {
    offset > MAX_OFFSET || |Issue(l, offset)| > MAX_CURSOR_CHARS
  }

  /** No cursor of this listing is too long. */
  ghost predicate CursorsFit(l: Listing) {
    forall offset: nat :: offset <= MAX_OFFSET ==> |Issue(l, offset)| <= MAX_CURSOR_CHARS
  }

  lemma IssuedOpens(l: Listing, offset: nat)
    ensures Issue(l, offset) != ""
    ensures DecodeCursor(Issue(l, offset), l.kind, l.version, l.sign, l.lenient)
         == if Jams(l, offset) then InvalidCursor else Offset(offset)
  {
    var _ := CursorUnpacks(l.kind, offset, l.version, l.sign, l.lenient);
    IssuedCursorDecodes(l.kind, offset, l.version, l.kind, l.version, l.sign, l.lenient);
  }

  /** Following an issued cursor: the page at its offset, unless the cursor is one that jams. */
  lemma FollowingIssued<T>(items: seq<T>, offset: nat, limit: nat, l: Listing)
    requires offset <= |items|
    ensures var end := if offset + limit < |items| then offset + limit else |items|;
            GetPage(items, Some(Issue(l, offset)), limit, l) ==
              if Jams(l, offset) then Refused(InvalidCursor)
              else Page(items[offset..end], if end < |items| then Some(Issue(l, end)) else None)
  {
    IssuedOpens(l, offset);
    FollowingDecoded(items, Issue(l, offset), Jams(l, offset), offset, limit, l);
  }

  lemma FollowingDecoded<T>(items: seq<T>, cursor: string, jams: bool, offset: nat, limit: nat, l: Listing)
    requires cursor != "" && offset <= |items|
    requires DecodeCursor(cursor, l.kind, l.version, l.sign, l.lenient)
          == if jams then InvalidCursor else Offset(offset)
    ensures var end := if offset + limit < |items| then offset + limit else |items|;
            GetPage(items, Some(cursor), limit, l) ==
              if jams then Refused(InvalidCursor)
              else Page(items[offset..end], if end < |items| then Some(Issue(l, end)) else None)
  {
  }

  /** This text carries a signed body naming the listing's kind and version and this offset, within the limit. */
  ghost predicate Opens(cursor: string, offset: nat, l: Listing) {
    offset <= 100_000 && Names(cursor, Payload(Some(l.kind), Some(offset), Some(l.version)), l.sign, l.lenient)
  }

  /**
   The items from an offset on, as many as the limit and the list allow, with a cursor exactly when items remain.
   */
  predicate IsPageFrom<T(==)>(page: Page<T>, items: seq<T>, offset: nat, limit: nat, l: Listing)
    requires offset <= |items|
  {
    && page.Page? && page.items <= items[offset..]
    && if page.next.Some? then |page.items| == limit && offset + limit < |items|
                               && page.next.value == Issue(l, offset + limit)
       else offset + |page.items| == |items| && |page.items| <= limit
  }

  lemma ServedFrom<T>(items: seq<T>, offset: nat, limit: nat, l: Listing)
    requires offset <= |items|
    ensures IsPageFrom(PageAt(items, Offset(offset), limit, l), items, offset, limit, l)
  {
    var end := if offset + limit < |items| then offset + limit else |items|;
    assert items[offset..end] <= items[offset..];
  }

  /**
   Any cursor text at all.  It is served exactly when it opens an offset within the list, and then by the page
   from there on; any other is refused.
   */
  lemma AnyCursorIsServed<T>(items: seq<T>, cursor: string, offset: nat, limit: nat, l: Listing)
    requires cursor != ""
    ensures Opens(cursor, offset, l) ==>
              var page := GetPage(items, Some(cursor), limit, l);
              if offset <= |items| then IsPageFrom(page, items, offset, limit, l) else page == Refused(InvalidCursor)
    ensures GetPage(items, Some(cursor), limit, l).Page? ==> exists n: nat :: n <= |items| && Opens(cursor, n, l)
  {
    AnyCursorDecodes(cursor, l.kind, l.version, l.sign, l.lenient, offset);
    if offset <= |items| {
      ServedFrom(items, offset, limit, l);
    }
    ServedIsOpened(items, cursor, limit, l);
  }

  lemma ServedIsOpened<T>(items: seq<T>, cursor: string, limit: nat, l: Listing)
    requires cursor != ""
    ensures GetPage(items, Some(cursor), limit, l).Page? ==> exists n: nat :: n <= |items| && Opens(cursor, n, l)
  {
    var decoded := DecodeCursor(cursor, l.kind, l.version, l.sign, l.lenient);
    if decoded.Offset? {
      AnyCursorDecodes(cursor, l.kind, l.version, l.sign, l.lenient, decoded.offset);
      assert Opens(cursor, decoded.offset, l);
    }
  }

  /** After the source has changed, an issued cursor is refused, as stale unless too long; it never yields a page. */
  lemma OldCursorIsStale<T>(items: seq<T>, offset: nat, limit: nat, l: Listing, version: string)
    requires version != l.version
    ensures GetPage(items, Some(Issue(l, offset)), limit, l.(version := version))
         == Refused(if |Issue(l, offset)| > MAX_CURSOR_CHARS then InvalidCursor else StaleCursor)
  {
    var _ := CursorUnpacks(l.kind, offset, l.version, l.sign, l.lenient);
    IssuedCursorDecodes(l.kind, offset, l.version, l.kind, version, l.sign, l.lenient);
  }

  datatype Walk<T> =
    | Walking(collected: seq<T>, cursor: Option<string>)
    | Finished(collected: seq<T>)
    | Stuck(error: Decoded)

  function Follow<T>(w: Walk<T>, items: seq<T>, limit: nat, l: Listing): Walk<T> {
    if !w.Walking? then w
    else match GetPage(items, w.cursor, limit, l)
      case Refused(error) => Stuck(error)
      case Page(page, next) =>
        if next.Some? then Walking(w.collected + page, next) else Finished(w.collected + page)
  }

  /** The walk after some rounds, each with a limit of its own. */
  function AfterRounds<T>(items: seq<T>, limits: seq<nat>, l: Listing): Walk<T> {
    if limits == [] then Walking([], None)
    else Follow(AfterRounds(items, limits[..|limits| - 1], l), items, limits[|limits| - 1], l)
  }

  /** How far so many rounds reach, if none is refused. */
  function Reach(limits: seq<nat>): nat {
    if limits == [] then 0 else Reach(limits[..|limits| - 1]) + limits[|limits| - 1]
  }

  /** Some round but the first starts short of the end, with a cursor that jams. */
  ghost predicate Jammed(length: nat, limits: seq<nat>, l: Listing) {
    exists i :: 0 < i < |limits| && Reach(limits[..i]) < length && Jams(l, Reach(limits[..i]))
  }

  lemma JammedSnoc(length: nat, limits: seq<nat>, l: Listing)
    requires limits != []
    ensures var before := limits[..|limits| - 1];
            Jammed(length, limits, l) <==>
              Jammed(length, before, l) || (before != [] && Reach(before) < length && Jams(l, Reach(before)))
  {
    var n := |limits| - 1;
    assert forall i :: 0 <= i <= n ==> limits[..n][..i] == limits[..i];
  }

  lemma Glue<T>(items: seq<T>, k: nat, end: nat)
    requires k <= end <= |items|
    ensures items[..k] + items[k..end] == items[..end]
    ensures end == |items| ==> items[..end] == items
  {
  }

  lemma FirstRound<T>(items: seq<T>, limit: nat, l: Listing)
    ensures Follow(Walking([], None), items, limit, l)
         == if limit >= |items| then Finished(items) else Walking(items[..limit], Some(Issue(l, limit)))
  {
    var end := if limit < |items| then limit else |items|;
    Glue(items, 0, end);
    assert items[..0] == [];
  }

  lemma NextRound<T>(items: seq<T>, k: nat, limit: nat, l: Listing)
    requires k < |items|
    ensures Follow(Walking(items[..k], Some(Issue(l, k))), items, limit, l)
         == if Jams(l, k) then Stuck(InvalidCursor)
            else if k + limit >= |items| then Finished(items)
            else Walking(items[..k + limit], Some(Issue(l, k + limit)))
  {
    FollowingIssued(items, k, limit, l);
    var end := if k + limit < |items| then k + limit else |items|;
    Glue(items, k, end);
  }

  /** The same, round by round. */
  predicate StopsShort(length: nat, limits: seq<nat>, l: Listing) {
    |limits| >= 2
    && var before := limits[..|limits| - 1];
       StopsShort(length, before, l) || (Reach(before) < length && Jams(l, Reach(before)))
  }

  lemma {:induction false} StopsShortMeaning(length: nat, limits: seq<nat>, l: Listing)
    ensures StopsShort(length, limits, l) <==> Jammed(length, limits, l)
  {
    if limits != [] {
      JammedSnoc(length, limits, l);
      StopsShortMeaning(length, limits[..|limits| - 1], l);
    }
  }

  function StandingAt<T>(items: seq<T>, stopped: bool, k: nat, l: Listing): Walk<T> {
    if stopped then Stuck(InvalidCursor)
    else if k >= |items| then Finished(items)
    else Walking(items[..k], Some(Issue(l, k)))
  }

  function Standing<T>(items: seq<T>, limits: seq<nat>, l: Listing): Walk<T> {
    StandingAt(items, StopsShort(|items|, limits, l), Reach(limits), l)
  }

  lemma RoundFromStanding<T>(items: seq<T>, stopped: bool, k: nat, limit: nat, l: Listing)
    ensures Follow(StandingAt(items, stopped, k, l), items, limit, l)
         == StandingAt(items, stopped || (k < |items| && Jams(l, k)), k + limit, l)
  {
    if !stopped && k < |items| {
      NextRound(items, k, limit, l);
    }
  }

  lemma OneRound<T>(items: seq<T>, limits: seq<nat>, l: Listing)
    requires |limits| == 1
    ensures AfterRounds(items, limits, l) == Standing(items, limits, l)
  {
    assert AfterRounds(items, limits[..0], l) == Walking([], None);
    assert Reach(limits[..0]) == 0;
    FirstRound(items, limits[0], l);
  }

  lemma StopsShortNext(length: nat, limits: seq<nat>, l: Listing)
    requires |limits| >= 2
    ensures var before := limits[..|limits| - 1];
            StopsShort(length, limits, l) <==>
              StopsShort(length, before, l) || (Reach(before) < length && Jams(l, Reach(before)))
  {
  }

  lemma ReachNext(limits: seq<nat>)
    requires limits != []
    ensures Reach(limits) == Reach(limits[..|limits| - 1]) + limits[|limits| - 1]
  {
  }

  lemma OneMoreRound<T>(items: seq<T>, limits: seq<nat>, l: Listing)
    requires |limits| >= 2
    ensures var last := |limits| - 1;
            Follow(Standing(items, limits[..last], l), items, limits[last], l) == Standing(items, limits, l)
  {
    var last := |limits| - 1;
    var before := limits[..last];
    RoundFromStanding(items, StopsShort(|items|, before, l), Reach(before), limits[last], l);
    StopsShortNext(|items|, limits, l);
    ReachNext(limits);
  }

  lemma {:induction false} RoundsStand<T>(items: seq<T>, limits: seq<nat>, l: Listing)
    requires limits != []
    ensures AfterRounds(items, limits, l) == Standing(items, limits, l)
  {
    var last := |limits| - 1;
    if last == 0 {
      OneRound(items, limits, l);
    } else {
      RoundsStand(items, limits[..last], l);
      OneMoreRound(items, limits, l);
    }
  }

  /** Where any walk stands, whatever the list, the limits and the listing. */
  lemma WalkStands<T>(items: seq<T>, limits: seq<nat>, l: Listing)
    requires limits != []
    ensures AfterRounds(items, limits, l)
         == if Jammed(|items|, limits, l) then Stuck(InvalidCursor)
            else if Reach(limits) >= |items| then Finished(items)
            else Walking(items[..Reach(limits)], Some(Issue(l, Reach(limits))))
  {
    RoundsStand(items, limits, l);
    StopsShortMeaning(|items|, limits, l);
  }

  /**
   A walk whose limits cover the list collects exactly the list if and only if none of its rounds starts,
   short of the end, with a cursor past the last offset accepted or over the length limit.  Otherwise it
   ends with an invalid cursor.
   */
  lemma FinishesExactlyUnlessJammed<T>(items: seq<T>, limits: seq<nat>, l: Listing)
    requires limits != [] && Reach(limits) >= |items|
    ensures AfterRounds(items, limits, l) == Finished(items) <==> !Jammed(|items|, limits, l)
    ensures AfterRounds(items, limits, l) == Stuck(InvalidCursor) <==> Jammed(|items|, limits, l)
  {
    WalkStands(items, limits, l);
  }

  lemma {:induction false} ReachGrows(limits: seq<nat>)
    requires forall i :: 0 <= i < |limits| ==> limits[i] >= 1
    ensures Reach(limits) >= |limits|
  {
    if limits != [] {
      ReachGrows(limits[..|limits| - 1]);
    }
  }

  /**
   The pages partition the list: starting without a cursor and following each page's cursor, with any
   limits of at least one, the walk is finished after at most as many rounds as there are items (one
   for an empty list), and what it collected is exactly the list.
   */
  lemma PagesPartitionTheList<T>(items: seq<T>, limits: seq<nat>, l: Listing)
    requires |items| <= MAX_OFFSET + 1 && CursorsFit(l)
    requires |limits| >= |items| && limits != []
    requires forall i :: 0 <= i < |limits| ==> limits[i] >= 1
    ensures AfterRounds(items, limits, l) == Finished(items)
  {
    ReachGrows(limits);
    WalkStands(items, limits, l);
  }

  lemma {:induction false} ReachOfEqualLimits(limits: seq<nat>, limit: nat, i: nat)
    requires i <= |limits| && forall j :: 0 <= j < |limits| ==> limits[j] == limit
    ensures Reach(limits[..i]) == i * limit
  {
    if i > 0 {
      ReachOfEqualLimits(limits, limit, i - 1);
      assert limits[..i][..i - 1] == limits[..i - 1];
    }
  }

  /** The first multiple of the limit past the last offset accepted. */
  function FirstRefused(limit: nat): nat
    requires limit >= 1
  {
    (MAX_OFFSET / limit + 1) * limit
  }

  lemma MultiplesGrow(i: nat, j: nat, limit: nat)
    requires i <= j
    ensures i * limit <= j * limit
  {
  }

  /** A multiple of the limit is past the last offset accepted exactly from the first refused one on. */
  lemma MultiplesRefused(i: nat, limit: nat)
    requires limit >= 1
    ensures i * limit > MAX_OFFSET <==> i >= MAX_OFFSET / limit + 1
    ensures i * limit > MAX_OFFSET <==> i * limit >= FirstRefused(limit)
  {
    var q := MAX_OFFSET / limit;
    assert q * limit <= MAX_OFFSET < (q + 1) * limit;
    if i <= q {
      MultiplesGrow(i, q, limit);
    } else {
      MultiplesGrow(q + 1, i, limit);
    }
  }

  lemma ShortIsNotJammed(length: nat, limits: seq<nat>, limit: nat, l: Listing)
    requires CursorsFit(l) && limit >= 1 && length <= FirstRefused(limit)
    requires forall i :: 0 <= i < |limits| ==> limits[i] == limit
    ensures !Jammed(length, limits, l)
  {
    forall i | 0 < i < |limits| && Reach(limits[..i]) < length ensures !Jams(l, Reach(limits[..i])) {
      ReachOfEqualLimits(limits, limit, i);
      MultiplesRefused(i, limit);
    }
  }

  lemma LongIsJammed(length: nat, limits: seq<nat>, limit: nat, l: Listing)
    requires limit >= 1 && FirstRefused(limit) < length <= |limits| * limit
    requires forall i :: 0 <= i < |limits| ==> limits[i] == limit
    ensures Jammed(length, limits, l)
  {
    var q := MAX_OFFSET / limit + 1;
    if q >= |limits| {
      MultiplesGrow(|limits|, q, limit);
    }
    ReachOfEqualLimits(limits, limit, q);
    MultiplesRefused(q, limit);
  }

  /** With one limit throughout, a list is read to its end exactly when no longer than the first refused multiple. */
  lemma EqualLimitsFinishExactly<T>(items: seq<T>, limits: seq<nat>, limit: nat, l: Listing)
    requires CursorsFit(l) && limit >= 1 && limits != [] && |limits| * limit >= |items|
    requires forall i :: 0 <= i < |limits| ==> limits[i] == limit
    ensures AfterRounds(items, limits, l) == Finished(items) <==> |items| <= FirstRefused(limit)
  {
    ReachOfEqualLimits(limits, limit, |limits|);
    assert limits[..|limits|] == limits;
    FinishesExactlyUnlessJammed(items, limits, l);
    if |items| <= FirstRefused(limit) {
      ShortIsNotJammed(|items|, limits, limit, l);
    } else {
      LongIsJammed(|items|, limits, limit, l);
    }
  }

  lemma DigitsOfOffset(offset: nat)
    ensures offset <= MAX_OFFSET ==> |EventIds.Decimal(offset)| <= 6
    ensures offset == MAX_OFFSET ==> |EventIds.Decimal(offset)| == 6
    ensures offset < 10_000 ==> |EventIds.Decimal(offset)| <= 4
  {
    assert Power10(4) == 10_000 && Power10(5) == 100_000 && Power10(6) == 1_000_000;
    DecimalLength(offset, 4);
    DecimalLength(offset, 5);
    DecimalLength(offset, 6);
  }

  /** No cursor of a listing is too long exactly when its quoted kind and version take at most 332 characters. */
  lemma CursorsFitExactly(l: Listing)
    ensures CursorsFit(l) <==> |JsonText.Quote(l.kind)| + |JsonText.Quote(l.version)| <= 332
  {
    forall offset: nat | offset <= MAX_OFFSET
      ensures |Issue(l, offset)| <= MAX_CURSOR_CHARS <==>
                |JsonText.Quote(l.kind)| + |JsonText.Quote(l.version)| + |EventIds.Decimal(offset)| <= 338
      ensures |EventIds.Decimal(offset)| <= 6
    {
      CursorFitsExactly(l.kind, offset, l.version, l.sign);
      DigitsOfOffset(offset);
    }
    DigitsOfOffset(MAX_OFFSET);
  }
}
