/** The server's two listings: how long they can be, and that following their cursors reads all of them. */
module Listings {
  import opened MissionSnapshots
  import opened NeedsJohn
  import opened NeedsJohnLaws
  import opened Paging
  import JsonText
  import Cursors
  import EventIds

  const MAX_CONFIGURED_MISSIONS: nat := 128
  const MAX_SNAPSHOT_RECORDS: nat := 500

  /** The catalog's own version, and a snapshot's: "sha256:" and 64 hexadecimal digits. */
  predicate HashVersion(version: string) {
    JsonText.Plain(version) && |version| == 71
  }

  lemma {:induction false} PutLength(items: seq<Item>, item: Item)
    ensures |Put(items, item)| <= |items| + 1
  {
    if items != [] {
      PutLength(items[1..], item);
    }
  }

  lemma {:induction false} PutAllLength(items: seq<Item>)
    ensures |PutAll(items)| <= |items|
  {
    if items != [] {
      PutAllLength(items[..|items| - 1]);
      PutLength(PutAll(items[..|items| - 1]), items[|items| - 1]);
    }
  }

  lemma {:induction false} LeaseItemsLength(s: Snapshot, leases: seq<Lease>, version: string, digest: Digest)
    ensures |LeaseItems(s, leases, version, digest)| <= |leases|
  {
    if leases != [] {
      LeaseItemsLength(s, leases[..|leases| - 1], version, digest);
    }
  }

  lemma {:induction false} TaskItemsLength(s: Snapshot, tasks: seq<Task>, version: string, fold: Fold, digest: Digest)
    ensures |TaskItems(s, tasks, version, fold, digest)| <= |tasks|
  {
    if tasks != [] {
      TaskItemsLength(s, tasks[..|tasks| - 1], version, fold, digest);
    }
  }

  /** A snapshot never derives more items than it has leases and tasks, and one for the mission. */
  lemma DerivedIsShort(s: Snapshot, version: string, fold: Fold, digest: Digest)
    ensures |Derived(s, version, fold, digest)| <= |s.leases| + 1 + |s.tasks|
  {
    var called := Called(s, version, fold, digest);
    LeaseItemsLength(s, s.leases, version, digest);
    TaskItemsLength(s, s.tasks, version, fold, digest);
    PutAllLength(called);
    SortItemsMembers(PutAll(called));
    SameMembers(Derived(s, version, fold, digest), PutAll(called));
  }

  lemma PlainLength(text: string)
    requires JsonText.Plain(text)
    ensures |JsonText.Quote(text)| == |text| + 2
  {
    JsonText.PlainQuote(text);
  }

  /** Every catalog of configured missions is read to its end, in pages of any sizes. */
  lemma MissionsAreReadThrough<T>(missions: seq<T>, limits: seq<nat>, l: Listing)
    requires |missions| <= MAX_CONFIGURED_MISSIONS && l.kind == "missions" && HashVersion(l.version)
    requires |limits| >= |missions| && limits != []
    requires forall i :: 0 <= i < |limits| ==> limits[i] >= 1
    ensures AfterRounds(missions, limits, l) == Finished(missions)
  {
    PlainLength(l.kind);
    PlainLength(l.version);
    CursorsFitExactly(l);
    PagesPartitionTheList(missions, limits, l);
  }

  /** Some page but the first starts where kind, version and offset together take more than a cursor holds. */
  ghost predicate Overlong(length: nat, limits: seq<nat>, l: Listing) {
    exists i :: 0 < i < |limits| && Reach(limits[..i]) < length
      && |JsonText.Quote(l.kind)| + |JsonText.Quote(l.version)| + |EventIds.Decimal(Reach(limits[..i]))| > 338
  }

  lemma ShortListJamsWhenOverlong(length: nat, limits: seq<nat>, l: Listing)
    requires length <= Cursors.MAX_OFFSET
    ensures Jammed(length, limits, l) <==> Overlong(length, limits, l)
  {
    forall i | 0 < i < |limits| {
      Cursors.CursorFitsExactly(l.kind, Reach(limits[..i]), l.version, l.sign);
    }
  }

  /**
   A needs-john listing, under any version a provider may name, is read to its end exactly when no page
   but the first starts at a cursor too long to be read; the offset itself is never refused.
   */
  lemma NeedsJohnIsReadThroughExactly(s: Snapshot, sourceVersion: string, fold: Fold, digest: Digest,
                                      limits: seq<nat>, l: Listing)
    requires |s.leases| <= MAX_SNAPSHOT_RECORDS && |s.tasks| <= MAX_SNAPSHOT_RECORDS
    requires limits != [] && Reach(limits) >= |Derived(s, sourceVersion, fold, digest)|
    ensures var items := Derived(s, sourceVersion, fold, digest);
            && |items| <= 1001
            && (AfterRounds(items, limits, l) == Finished(items) <==> !Overlong(|items|, limits, l))
  {
    DerivedIsShort(s, sourceVersion, fold, digest);
    FinishesExactlyUnlessJammed(Derived(s, sourceVersion, fold, digest), limits, l);
    ShortListJamsWhenOverlong(|Derived(s, sourceVersion, fold, digest)|, limits, l);
  }

  /** So it is, in pages of any sizes, whenever its quoted kind and version take at most 334 characters. */
  lemma NeedsJohnIsReadThrough(s: Snapshot, sourceVersion: string, fold: Fold, digest: Digest,
                               limits: seq<nat>, l: Listing)
    requires |s.leases| <= MAX_SNAPSHOT_RECORDS && |s.tasks| <= MAX_SNAPSHOT_RECORDS
    requires limits != [] && Reach(limits) >= |Derived(s, sourceVersion, fold, digest)|
    requires |JsonText.Quote(l.kind)| + |JsonText.Quote(l.version)| <= 334
    ensures AfterRounds(Derived(s, sourceVersion, fold, digest), limits, l)
         == Finished(Derived(s, sourceVersion, fold, digest))
  {
    NeedsJohnIsReadThroughExactly(s, sourceVersion, fold, digest, limits, l);
    forall i | 0 < i < |limits| {
      DigitsOfOffset(Reach(limits[..i]));
    }
  }

  /** A source version of at most 165 plain characters, as a snapshot's own is, leaves room for any mission. */
  lemma PlainVersionsLeaveRoom(missionId: string, ruleVersion: string, sourceVersion: string, l: Listing)
    requires Identifier(missionId) && l.kind == "needs-john:" + missionId
    requires JsonText.Plain(ruleVersion) && |ruleVersion| <= 25
    requires JsonText.Plain(sourceVersion) && |sourceVersion| <= 165
    requires l.version == ruleVersion + ":" + sourceVersion
    ensures |JsonText.Quote(l.kind)| + |JsonText.Quote(l.version)| <= 334
  {
    assert JsonText.Plain(missionId) && JsonText.Plain(l.kind);
    PlainLength(l.kind);
    PlainLength(l.version);
  }

  /**
   A provider may name its own source version, of up to 256 characters.  When quoted kind and version take
   more than 337 characters, the cursor of the second page is too long, whatever the page's size, and a
   listing of more than one page is never read through.
   */
  lemma LongSourceVersionStopsAtFirstPage<T>(items: seq<T>, limits: seq<nat>, l: Listing)
    requires |JsonText.Quote(l.kind)| + |JsonText.Quote(l.version)| > 337
    requires |limits| >= 2 && 1 <= limits[0] < |items|
    ensures AfterRounds(items, limits, l) == Stuck(Cursors.InvalidCursor)
  {
    Cursors.CursorFitsExactly(l.kind, limits[0], l.version, l.sign);
    assert |EventIds.Decimal(limits[0])| > 0;
    assert limits[..1] == [limits[0]] && Reach(limits[..1]) == limits[0];
    assert Jammed(|items|, limits, l);
    WalkStands(items, limits, l);
  }

  /** A text that the version field takes as it stands: its length, and no blank at either end. */
  predicate OpaqueVersion(version: string) {
    1 <= |version| <= 256 && version[0] > ' ' && version[|version| - 1] > ' '
  }

  /** There are such listings: the longest mission id and the longest source version, all letters. */
  lemma LongestNamesStopAtFirstPage<T>(items: seq<T>, limits: seq<nat>, sign: Cursors.Sign, lenient: Cursors.Lenient)
    returns (missionId: string, sourceVersion: string)
    requires |limits| >= 2 && 1 <= limits[0] < |items|
    ensures Identifier(missionId) && OpaqueVersion(sourceVersion)
    ensures var l := Listing("needs-john:" + missionId, RULE_VERSION + ":" + sourceVersion, sign, lenient);
            AfterRounds(items, limits, l) == Stuck(Cursors.InvalidCursor)
  {
    missionId, sourceVersion := seq(128, i => 'a'), seq(256, i => 'a');
    var kind, version := "needs-john:" + missionId, RULE_VERSION + ":" + sourceVersion;
    PlainLength(kind);
    PlainLength(version);
    LongSourceVersionStopsAtFirstPage(items, limits, Listing(kind, version, sign, lenient));
  }
}
