/**
 Replication slots and the publication left behind by moonlink: the listing, the Rust
 cleanup, and the PL/pgSQL cleanup run by the extension-drop watcher.
 */
module SlotCleanup {
  import opened Basics

  // ------------------------------------------------------------------- SQL's pieces

  datatype Tri = True | False | Unknown

  function Bool3(b: bool): Tri { if b then True else False }

  /** `=` on possibly NULL text. */
  function Equals(a: Option<string>, b: Option<string>): Tri {
    if a.None? || b.None? then Unknown else Bool3(a.value == b.value)
  }

  function And(a: Tri, b: Tri): Tri {
    if a.False? || b.False? then False else if a.True? && b.True? then True else Unknown
  }

  /** LIKE: `%` any text, `_` any one character, backslash takes the next one literally. */
  predicate Like(s: string, pattern: string)
    decreases |pattern|, |s|
  {
    if pattern == "" then s == ""
    else if pattern[0] == '%' then Like(s, pattern[1..]) || (s != "" && Like(s[1..], pattern))
    else if pattern[0] == '_' then s != "" && Like(s[1..], pattern[1..])
    else if pattern[0] == '\\' && |pattern| > 1 then s != "" && s[0] == pattern[1] && Like(s[1..], pattern[2..])
    else s != "" && s[0] == pattern[0] && Like(s[1..], pattern[1..])
  }

  const SLOT_PATTERN: string := "moonlink_slot_%"

  lemma {:induction false} LikeLiteral(s: string, literal: string, rest: string)
    requires forall k | 0 <= k < |literal| :: literal[k] != '%' && literal[k] != '_' && literal[k] != '\\'
    ensures Like(s, literal + rest) <==> |literal| <= |s| && s[..|literal|] == literal && Like(s[|literal|..], rest)
  {
    if literal == "" {
      assert literal + rest == rest && s[0..] == s;
    } else {
      assert (literal + rest)[1..] == literal[1..] + rest;
      if s != "" {
        LikeLiteral(s[1..], literal[1..], rest);
        assert |literal| <= |s| ==> s[1..][..|literal| - 1] == s[..|literal|][1..];
        assert |literal| <= |s| ==> s[1..][|literal| - 1..] == s[|literal|..];
        assert literal == [literal[0]] + literal[1..];
      }
    }
  }

  lemma LikeOne(s: string, rest: string)
    ensures Like(s, "_" + rest) <==> s != "" && Like(s[1..], rest)
  {
    assert ("_" + rest)[1..] == rest;
  }

  lemma {:induction false} LikeAny(s: string)
    ensures Like(s, "%")
  {
    assert "%"[1..] == "";
    if s != "" {
      LikeAny(s[1..]);
    }
  }

  /** The pattern after its first word: one character, `slot`, one more, anything. */
  lemma TailMeans(t: string)
    ensures Like(t, "_" + ("slot" + ("_" + "%"))) <==> |t| >= 6 && t[1..5] == "slot"
  {
    LikeOne(t, "slot" + ("_" + "%"));
    if t != "" {
      LikeLiteral(t[1..], "slot", "_" + "%");
      if |t| >= 5 {
        var rest := t[1..][4..];
        assert t[1..][..4] == t[1..5];
        LikeOne(rest, "%");
        if rest != "" {
          LikeAny(rest[1..]);
        }
      }
    }
  }

  lemma PiecesMean(s: string)
    ensures Like(s, "moonlink" + ("_" + ("slot" + ("_" + "%")))) <==>
            |s| >= 14 && s[..8] == "moonlink" && s[9..13] == "slot"
  {
    var tail := "_" + ("slot" + ("_" + "%"));
    LikeLiteral(s, "moonlink", tail);
    if |s| >= 8 {
      var t := s[8..];
      TailMeans(t);
      if |t| >= 6 {
        assert t[1..5] == s[9..13];
      }
    }
  }

  /** Both underscores of 'moonlink_slot_%' are wildcards: what counts is the length and two words. */
  lemma {:induction false} SlotPatternMeans(s: string)
    ensures Like(s, SLOT_PATTERN) <==> |s| >= 14 && s[..8] == "moonlink" && s[9..13] == "slot"
  {
    assert SLOT_PATTERN == "moonlink" + ("_" + ("slot" + ("_" + "%")));
    PiecesMean(s);
  }

  /** So the pattern takes in more than names beginning with moonlink_slot_. */
  lemma {:induction false} PatternIsNotAPrefix()
    ensures Like("moonlinkxslotyz", SLOT_PATTERN)
  {
    var s := "moonlinkxslotyz";
    assert s[..8] == "moonlink" && s[9..13] == "slot";
    SlotPatternMeans(s);
  }

  // ------------------------------------------------------------------------ queries

  /** A pg_replication_slots row; a physical slot has no database. */
  datatype Slot = Slot(name: string, database: Option<string>, pid: Option<int>)

  predicate Moonlink(slot: Slot) { Like(slot.name, SLOT_PATTERN) }

  /** WHERE slot_name LIKE ... AND database = current_database(): unknown is not true. */
  predicate Selected(current: string, slot: Slot) {
    And(Bool3(Moonlink(slot)), Equals(slot.database, Some(current))).True?
  }

  /** Both in terms of the slot alone. */
  lemma SelectedIff(current: string, slot: Slot)
    ensures Moonlink(slot) <==> |slot.name| >= 14 && slot.name[..8] == "moonlink" && slot.name[9..13] == "slot"
    ensures Selected(current, slot) <==> Moonlink(slot) && slot.database == Some(current)
  {
    SlotPatternMeans(slot.name);
  }

  function LocalSlots(current: string, slots: seq<Slot>): seq<Slot> {
    Filter((slot: Slot) => Selected(current, slot), slots)
  }

  /** Step 2 of drop_orphan_slots: nothing while mooncake tables remain. */
  function Orphans(current: string, mirrors: nat, slots: seq<Slot>): seq<Slot> {
    if mirrors == 0 then LocalSlots(current, slots) else []
  }

  datatype Listed = Listed(name: string, database: Option<string>, mirrors: Option<nat>, isOrphan: bool)

  predicate NameLe(a: string, b: string) {
    a == "" || (b != "" && (a[0] < b[0] || (a[0] == b[0] && NameLe(a[1..], b[1..]))))
  }

  predicate ByName(a: Slot, b: Slot) { NameLe(a.name, b.name) }

  /** One output row: both CASE expressions fall to ELSE unless their condition is true. */
  function ListRow(current: string, mirrors: nat, slot: Slot): Listed {
    var here := Equals(slot.database, Some(current));
    Listed(slot.name, slot.database,
           if here.True? then Some(mirrors) else None,
           And(here, Bool3(mirrors == 0)).True?)
  }

  function Map<T, U>(f: T -> U, s: seq<T>): (r: seq<U>)
    ensures |r| == |s| && forall k | 0 <= k < |s| :: r[k] == f(s[k])
  {
    if s == [] then [] else [f(s[0])] + Map(f, s[1..])
  }

  function ListOrphanSlots(current: string, mirrors: nat, slots: seq<Slot>): seq<Listed> {
    Map((slot: Slot) => ListRow(current, mirrors, slot), OrderBy(ByName, Filter(Moonlink, slots)))
  }

  function Names(slots: seq<Slot>): set<string> { set k | 0 <= k < |slots| :: slots[k].name }

  /** Name order: one name is the front of the other, or the first character in which they differ decides. */
  lemma {:induction false} NameLeIff(a: string, b: string)
    ensures NameLe(a, b) <==>
            exists n :: 0 <= n <= |a| && n <= |b| && a[..n] == b[..n] && (n == |a| || (n < |b| && a[n] < b[n]))
  {
    if a != "" && b != "" && a[0] == b[0] {
      NameLeIff(a[1..], b[1..]);
      if n :| 0 <= n <= |a[1..]| && n <= |b[1..]| && a[1..][..n] == b[1..][..n]
              && (n == |a[1..]| || (n < |b[1..]| && a[1..][n] < b[1..][n])) {
        assert a[..n + 1] == [a[0]] + a[1..][..n] && b[..n + 1] == [b[0]] + b[1..][..n];
      }
      if n :| 0 <= n <= |a| && n <= |b| && a[..n] == b[..n] && (n == |a| || (n < |b| && a[n] < b[n])) {
        assert n > 0 && a[1..][..n - 1] == a[..n][1..] && b[1..][..n - 1] == b[..n][1..];
      }
    } else {
      assert a[..0] == b[..0];
      if a != "" && b != "" {
        forall n | 0 < n <= |a| && n <= |b| ensures a[..n] != b[..n] {
          assert a[..n][0] == a[0] && b[..n][0] == b[0];
        }
      }
    }
  }

  lemma {:induction false} NameLeTotal(a: string, b: string)
    ensures NameLe(a, b) || NameLe(b, a)
  {
    if a != "" && b != "" {
      NameLeTotal(a[1..], b[1..]);
    }
  }

  lemma {:induction false} NameLeTransitive(a: string, b: string, c: string)
    requires NameLe(a, b) && NameLe(b, c)
    ensures NameLe(a, c)
  {
    if a != "" && b != "" && c != "" && a[0] == b[0] == c[0] {
      NameLeTransitive(a[1..], b[1..], c[1..]);
    }
  }

  lemma ByNameOrders()
    ensures TotalOrder(ByName)
  {
    forall x, y ensures ByName(x, y) || ByName(y, x) {
      NameLeTotal(x.name, y.name);
    }
    forall x, y, z | ByName(x, y) && ByName(y, z) ensures ByName(x, z) {
      NameLeTransitive(x.name, y.name, z.name);
    }
  }

  lemma ListedSlots(slots: seq<Slot>, slot: Slot)
    ensures slot in OrderBy(ByName, Filter(Moonlink, slots)) <==> slot in slots && Moonlink(slot)
  {
    var source := OrderBy(ByName, Filter(Moonlink, slots));
    ByNameOrders();
    OrderBySorts(ByName, Filter(Moonlink, slots));
    FilterMember(Moonlink, slots, slot);
    assert slot in source <==> slot in multiset(source);
    assert slot in Filter(Moonlink, slots) <==> slot in multiset(Filter(Moonlink, slots));
  }

  lemma LocalMember(current: string, slots: seq<Slot>, slot: Slot)
    ensures slot in LocalSlots(current, slots) <==>
            slot in slots && Moonlink(slot) && slot.database == Some(current)
  {
    FilterMember((s: Slot) => Selected(current, s), slots, slot);
  }

  /** What drop_orphan_slots acts on, and what the watcher acts on whatever tables remain. */
  lemma OrphansAre(current: string, mirrors: nat, slots: seq<Slot>, slot: Slot)
    ensures slot in LocalSlots(current, slots) <==>
            && slot in slots && slot.database == Some(current)
            && |slot.name| >= 14 && slot.name[..8] == "moonlink" && slot.name[9..13] == "slot"
    ensures slot in Orphans(current, mirrors, slots) <==>
            && mirrors == 0 && slot in slots && slot.database == Some(current)
            && |slot.name| >= 14 && slot.name[..8] == "moonlink" && slot.name[9..13] == "slot"
  {
    LocalMember(current, slots, slot);
    SelectedIff(current, slot);
  }

  lemma SourceShape(slots: seq<Slot>)
    ensures var source := OrderBy(ByName, Filter(Moonlink, slots));
            && |source| == |Filter(Moonlink, slots)|
            && forall i, j :: 0 <= i < j < |source| ==> NameLe(source[i].name, source[j].name)
  {
    var kept := Filter(Moonlink, slots);
    var source := OrderBy(ByName, kept);
    ByNameOrders();
    OrderBySorts(ByName, kept);
    assert |multiset(source)| == |source| && |multiset(kept)| == |kept|;
    forall i, j | 0 <= i < j < |source| ensures NameLe(source[i].name, source[j].name) {
      assert ByName(source[i], source[j]);
    }
  }

  /** The rows tell the names and databases of these slots. */
  ghost predicate Describes(rows: seq<Listed>, source: seq<Slot>) {
    |rows| == |source|
    && forall k | 0 <= k < |rows| :: rows[k].name == source[k].name && rows[k].database == source[k].database
  }

  /** The listing describes every matching slot once, in name order. */
  lemma ListingInOrder(current: string, mirrors: nat, slots: seq<Slot>)
    ensures var rows := ListOrphanSlots(current, mirrors, slots);
            && (exists source :: Describes(rows, source) && multiset(source) == multiset(Filter((slot: Slot) =>
                  |slot.name| >= 14 && slot.name[..8] == "moonlink" && slot.name[9..13] == "slot", slots)))
            && forall i, j :: 0 <= i < j < |rows| ==> NameLe(rows[i].name, rows[j].name)
  {
    var source := OrderBy(ByName, Filter(Moonlink, slots));
    SourceShape(slots);
    ByNameOrders();
    OrderBySorts(ByName, Filter(Moonlink, slots));
    assert Describes(ListOrphanSlots(current, mirrors, slots), source);
    var shape := (slot: Slot) => |slot.name| >= 14 && slot.name[..8] == "moonlink" && slot.name[9..13] == "slot";
    forall slot ensures Moonlink(slot) <==> shape(slot) {
      SelectedIff(current, slot);
    }
    FilterSame(Moonlink, shape, slots);
  }

  /** It counts mirrors, and flags orphans, only for slots of its own database. */
  lemma ListingFlags(current: string, mirrors: nat, slots: seq<Slot>, r: Listed)
    requires r in ListOrphanSlots(current, mirrors, slots)
    ensures r.mirrors == (if r.database == Some(current) then Some(mirrors) else None)
    ensures r.isOrphan <==> r.database == Some(current) && mirrors == 0
  {
    var rows := ListOrphanSlots(current, mirrors, slots);
    var k :| 0 <= k < |rows| && rows[k] == r;
  }

  lemma FlaggedRow(current: string, mirrors: nat, slots: seq<Slot>, r: Listed) returns (slot: Slot)
    requires r in ListOrphanSlots(current, mirrors, slots) && r.isOrphan
    ensures slot in Orphans(current, mirrors, slots) && slot.name == r.name
  {
    var rows := ListOrphanSlots(current, mirrors, slots);
    var k :| 0 <= k < |rows| && rows[k] == r;
    slot := OrderBy(ByName, Filter(Moonlink, slots))[k];
    ListedSlots(slots, slot);
    LocalMember(current, slots, slot);
  }

  lemma ActedOnRow(current: string, mirrors: nat, slots: seq<Slot>, slot: Slot) returns (r: Listed)
    requires slot in Orphans(current, mirrors, slots)
    ensures r in ListOrphanSlots(current, mirrors, slots) && r.isOrphan && r.name == slot.name
  {
    LocalMember(current, slots, slot);
    ListedSlots(slots, slot);
    var source := OrderBy(ByName, Filter(Moonlink, slots));
    var k :| 0 <= k < |source| && source[k] == slot;
    r := ListOrphanSlots(current, mirrors, slots)[k];
  }

  /**
   The slots the listing flags as orphans are exactly those the cleanup acts on, slots
   without a database included.
   */
  lemma FlaggedIsActedOn(current: string, mirrors: nat, slots: seq<Slot>, name: string)
    ensures (exists r :: r in ListOrphanSlots(current, mirrors, slots) && r.isOrphan && r.name == name)
            <==> name in Names(Orphans(current, mirrors, slots))
  {
    var found := Orphans(current, mirrors, slots);
    if r :| r in ListOrphanSlots(current, mirrors, slots) && r.isOrphan && r.name == name {
      var slot := FlaggedRow(current, mirrors, slots, r);
      var j :| 0 <= j < |found| && found[j] == slot;
    }
    if name in Names(found) {
      var j :| 0 <= j < |found| && found[j].name == name;
      var r := ActedOnRow(current, mirrors, slots, found[j]);
    }
  }

  // -------------------------------------------------------------- removing slots

  /** Slot names are unique. */
  predicate Distinct(slots: seq<Slot>) {
    slots == [] || (slots[0].name !in Names(slots[1..]) && Distinct(slots[1..]))
  }

  lemma {:induction false} DistinctIff(slots: seq<Slot>)
    ensures Distinct(slots) <==> forall i, j :: 0 <= i < j < |slots| ==> slots[i].name != slots[j].name
  {
    if slots != [] {
      var tail := slots[1..];
      DistinctIff(tail);
      assert forall k | 0 <= k < |tail| :: tail[k] == slots[k + 1] && tail[k].name in Names(tail);
      assert forall k | 0 < k < |slots| :: slots[k] == tail[k - 1];
    }
  }

  lemma DistinctAt(slots: seq<Slot>, i: nat, j: nat)
    requires Distinct(slots) && i < |slots| && j < |slots| && slots[i].name == slots[j].name
    ensures i == j
  {
    DistinctIff(slots);
  }

  function Without(slots: seq<Slot>, gone: set<string>): seq<Slot> {
    if slots == [] then []
    else (if slots[0].name in gone then [] else [slots[0]]) + Without(slots[1..], gone)
  }

  lemma {:induction false} WithoutIsFilter(slots: seq<Slot>, gone: set<string>)
    ensures Without(slots, gone) == Filter((slot: Slot) => slot.name !in gone, slots)
  {
    if slots != [] {
      WithoutIsFilter(slots[1..], gone);
    }
  }

  predicate Has(slots: seq<Slot>, name: string) {
    slots != [] && (slots[0].name == name || Has(slots[1..], name))
  }

  lemma {:induction false} WithoutAbsent(slots: seq<Slot>, name: string)
    requires !Has(slots, name)
    ensures Without(slots, {name}) == slots
  {
    if slots != [] {
      WithoutAbsent(slots[1..], name);
      assert slots == [slots[0]] + slots[1..];
    }
  }

  lemma WithoutTwice(slots: seq<Slot>, a: set<string>, b: set<string>)
    ensures Without(Without(slots, a), b) == Without(slots, a + b)
  {
    WithoutIsFilter(slots, a);
    WithoutIsFilter(Without(slots, a), b);
    WithoutIsFilter(slots, a + b);
    FilterFilter((slot: Slot) => slot.name !in b, (slot: Slot) => slot.name !in a,
                 (slot: Slot) => slot.name !in a + b, slots);
  }

  lemma {:induction false} WithoutNothing(slots: seq<Slot>)
    ensures Without(slots, {}) == slots
  {
    if slots != [] {
      WithoutNothing(slots[1..]);
      assert slots == [slots[0]] + slots[1..];
    }
  }

  lemma WithoutMember(slots: seq<Slot>, gone: set<string>, slot: Slot)
    ensures slot in Without(slots, gone) <==> slot in slots && slot.name !in gone
  {
    WithoutIsFilter(slots, gone);
    FilterMember((s: Slot) => s.name !in gone, slots, slot);
  }

  /** Selecting commutes with removing. */
  lemma LocalAfterRemoval(current: string, slots: seq<Slot>, gone: set<string>)
    ensures LocalSlots(current, Without(slots, gone)) == Without(LocalSlots(current, slots), gone)
  {
    var keep, stay := (slot: Slot) => Selected(current, slot), (slot: Slot) => slot.name !in gone;
    var both := (slot: Slot) => Selected(current, slot) && slot.name !in gone;
    WithoutIsFilter(slots, gone);
    WithoutIsFilter(LocalSlots(current, slots), gone);
    FilterFilter(keep, stay, both, slots);
    FilterFilter(stay, keep, both, slots);
  }

  /** Which calls fail: terminating a pid, dropping a slot, reading and dropping the publication, self-removal. */
  datatype Faults = Faults(
    terminate: int -> bool,
    drop: string -> bool,
    readPublication: bool,
    dropPublication: bool,
    dropTrigger: bool,
    dropFunction: bool)

  datatype Style = Rust | Plpgsql

  /** The slot survives: its drop fails or, in PL/pgSQL, an error of the terminate call skipped the drop. */
  predicate Stuck(style: Style, f: Faults, slot: Slot) {
    f.drop(slot.name) || (style.Plpgsql? && slot.pid.Some? && f.terminate(slot.pid.value))
  }

  /** Names that go away while the first `n` orphans are handled. */
  function DropsUpTo(style: Style, f: Faults, orphans: seq<Slot>, n: nat): set<string>
    requires n <= |orphans|
  {
    if n == 0 then {}
    else DropsUpTo(style, f, orphans, n - 1) + if Stuck(style, f, orphans[n - 1]) then {} else {orphans[n - 1].name}
  }

  function Drops(style: Style, f: Faults, orphans: seq<Slot>): set<string> { DropsUpTo(style, f, orphans, |orphans|) }

  lemma {:induction false} DropsMember(style: Style, f: Faults, orphans: seq<Slot>, n: nat, name: string)
    requires n <= |orphans|
    ensures name in DropsUpTo(style, f, orphans, n) <==>
            exists k :: 0 <= k < n && orphans[k].name == name && !Stuck(style, f, orphans[k])
  {
    if n > 0 {
      DropsMember(style, f, orphans, n - 1, name);
    }
  }

  /** The slots after one orphan, and after the first `n`, were handled. */
  function StepSlots(style: Style, f: Faults, slots: seq<Slot>, slot: Slot): seq<Slot> {
    if Stuck(style, f, slot) then slots else Without(slots, {slot.name})
  }

  function RunSlots(style: Style, f: Faults, slots: seq<Slot>, orphans: seq<Slot>, n: nat): seq<Slot>
    requires n <= |orphans|
  {
    if n == 0 then slots else StepSlots(style, f, RunSlots(style, f, slots, orphans, n - 1), orphans[n - 1])
  }

  lemma {:induction false} RunRemovesDrops(style: Style, f: Faults, slots: seq<Slot>, orphans: seq<Slot>, n: nat)
    requires n <= |orphans|
    ensures RunSlots(style, f, slots, orphans, n) == Without(slots, DropsUpTo(style, f, orphans, n))
  {
    if n == 0 {
      WithoutNothing(slots);
    } else {
      RunRemovesDrops(style, f, slots, orphans, n - 1);
      var before := DropsUpTo(style, f, orphans, n - 1);
      WithoutTwice(slots, before, {orphans[n - 1].name});
      assert before + {} == before;
    }
  }

  datatype Request = TerminateBackend(pid: int) | DropReplicationSlot(name: string)

  /** What is asked of the server for one orphan: its holder is terminated before it is dropped. */
  function RequestsFor(style: Style, f: Faults, slot: Slot): seq<Request> {
    var first := if slot.pid.Some? then [TerminateBackend(slot.pid.value)] else [];
    var cut := style.Plpgsql? && slot.pid.Some? && f.terminate(slot.pid.value);
    first + if cut then [] else [DropReplicationSlot(slot.name)]
  }

  function RequestsUpTo(style: Style, f: Faults, orphans: seq<Slot>, n: nat): seq<Request>
    requires n <= |orphans|
  {
    if n == 0 then [] else RequestsUpTo(style, f, orphans, n - 1) + RequestsFor(style, f, orphans[n - 1])
  }

  function Requests(style: Style, f: Faults, orphans: seq<Slot>): seq<Request> {
    RequestsUpTo(style, f, orphans, |orphans|)
  }

  /**
   Right after the requests for the orphans before it each orphan has its own: terminate,
   if it is held, then drop. There are no others.
   */
  lemma {:induction false} RequestsInOrder(style: Style, f: Faults, orphans: seq<Slot>, n: nat, k: nat)
    requires k < n <= |orphans|
    ensures var slot := orphans[k];
            var asked := RequestsUpTo(style, f, orphans, k) +
              (if slot.pid.None? then [DropReplicationSlot(slot.name)]
               else if style == Plpgsql && f.terminate(slot.pid.value) then [TerminateBackend(slot.pid.value)]
               else [TerminateBackend(slot.pid.value), DropReplicationSlot(slot.name)]);
            asked <= RequestsUpTo(style, f, orphans, n) && (n == k + 1 ==> asked == RequestsUpTo(style, f, orphans, n))
    ensures RequestsUpTo(style, f, orphans, 0) == []
  {
    if k < n - 1 {
      RequestsInOrder(style, f, orphans, n - 1, k);
    }
  }

  const PUBLICATION: string := "moonlink_pub"

  datatype Row = Row(name: string, pid: Option<int>, publicationDropped: bool)

  /** One row per orphan in order; only the last carries the publication's fate. */
  ghost predicate RowsFor(out: seq<Row>, orphans: seq<Slot>, n: nat, dropped: bool) {
    && |out| == n <= |orphans|
    && forall k | 0 <= k < n :: out[k] == Row(orphans[k].name, orphans[k].pid, k == |orphans| - 1 && dropped)
  }

  lemma RowsForGrows(out: seq<Row>, orphans: seq<Slot>, i: nat, dropped: bool)
    requires i < |orphans| && RowsFor(out, orphans, i, false)
    requires i < |orphans| - 1 ==> !dropped
    ensures RowsFor(out + [Row(orphans[i].name, orphans[i].pid, dropped)], orphans, i + 1, dropped)
  {
  }

  /** What drop_orphan_slots returns: rows for the orphans, or one synthetic row for the publication alone. */
  function Report(orphans: seq<Slot>, went: bool): seq<Row> {
    if orphans == [] then (if went then [Row("", None, true)] else [])
    else
      seq(|orphans|, k requires 0 <= k < |orphans| =>
        Row(orphans[k].name, orphans[k].pid, k == |orphans| - 1 && went))
  }

  lemma RowsAreTheReport(out: seq<Row>, orphans: seq<Slot>, went: bool)
    requires orphans != [] && RowsFor(out, orphans, |orphans|, went)
    ensures out == Report(orphans, went)
  {
  }

  /** What a cleanup leaves behind. */
  datatype Left = Left(slots: seq<Slot>, publications: set<string>)

  function Leaves(style: Style, current: string, mirrors: nat, slots: seq<Slot>, publications: set<string>,
      f: Faults): Left {
    match style
    case Rust =>
      Left(Without(slots, Drops(Rust, f, Orphans(current, mirrors, slots))),
           publications - if mirrors == 0 && !f.readPublication && !f.dropPublication then {PUBLICATION} else {})
    case Plpgsql =>
      Left(Without(slots, Drops(Plpgsql, f, LocalSlots(current, slots))),
           publications - if f.dropPublication then {} else {PUBLICATION})
  }

  datatype Object = Object(kind: string, name: string)

  predicate DropsExtension(dropped: seq<Object>) {
    exists k :: 0 <= k < |dropped| && dropped[k] == Object("extension", "pg_mooncake")
  }

  class Server {
    const current: string         // current_database()
    var mirrors: nat              // tables with access method mooncake
    var slots: seq<Slot>
    var publications: set<string>
    var watcherTrigger: bool      // mooncake_extension_drop_trigger
    var watcherFunction: bool     // mooncake_extension_drop_cleanup
    var issued: seq<Request>      // requests so far, refused ones included
    var attempts: nat             // calls of attempt_drop_publication so far
    var firings: nat              // runs of the watcher function so far

    predicate Valid()
      reads this
    {
      Distinct(slots)
    }

    constructor (current: string, mirrors: nat, slots: seq<Slot>, publications: set<string>)
      requires Distinct(slots)
      ensures Valid() && this.current == current && this.mirrors == mirrors
      ensures this.slots == slots && this.publications == publications && watcherTrigger && watcherFunction
      ensures issued == [] && attempts == 0 && firings == 0
    {
      this.current, this.mirrors, this.slots, this.publications := current, mirrors, slots, publications;
      watcherTrigger, watcherFunction, issued, attempts, firings := true, true, [], 0, 0;
    }

    /** pg_terminate_backend. */
    method Terminate(pid: int, f: Faults) returns (ok: bool)
      modifies this`issued
      ensures ok <==> !f.terminate(pid)
      ensures issued == old(issued) + [TerminateBackend(pid)]
    {
      issued := issued + [TerminateBackend(pid)];
      ok := !f.terminate(pid);
    }

    /** pg_drop_replication_slot: an error also when there is no such slot. */
    method DropSlot(name: string, f: Faults) returns (ok: bool)
      modifies this`slots, this`issued
      ensures ok <==> !f.drop(name) && Has(old(slots), name)
      ensures issued == old(issued) + [DropReplicationSlot(name)]
      ensures slots == if f.drop(name) then old(slots) else Without(old(slots), {name})
    {
      issued := issued + [DropReplicationSlot(name)];
      ok := !f.drop(name) && Has(slots, name);
      if ok {
        slots := Without(slots, {name});
      } else if !f.drop(name) {
        WithoutAbsent(slots, name);
      }
    }

    /** One turn of the Rust loop: the result of terminating is ignored, an error of the drop only warns. */
    method RemoveOrphan(slot: Slot, f: Faults)
      modifies this`slots, this`issued
      ensures slots == StepSlots(Rust, f, old(slots), slot)
      ensures issued == old(issued) + RequestsFor(Rust, f, slot)
      ensures issued == old(issued) + if slot.pid.None? then [DropReplicationSlot(slot.name)]
                                      else [TerminateBackend(slot.pid.value), DropReplicationSlot(slot.name)]
    {
      if slot.pid.Some? {
        var signalled := Terminate(slot.pid.value, f);
      }
      var ok := DropSlot(slot.name, f);
    }

    /** One turn of the PL/pgSQL loop: an exception of either call ends the block with a warning. */
    method RemoveInBlock(slot: Slot, f: Faults)
      modifies this`slots, this`issued
      ensures slots == StepSlots(Plpgsql, f, old(slots), slot)
      ensures issued == old(issued) + RequestsFor(Plpgsql, f, slot)
      ensures issued == old(issued) + if slot.pid.None? then [DropReplicationSlot(slot.name)]
                                      else if f.terminate(slot.pid.value) then [TerminateBackend(slot.pid.value)]
                                      else [TerminateBackend(slot.pid.value), DropReplicationSlot(slot.name)]
    {
      if slot.pid.Some? {
        var signalled := Terminate(slot.pid.value, f);
        if !signalled {
          return;
        }
      }
      var ok := DropSlot(slot.name, f);
    }

    /** attempt_drop_publication. */
    method AttemptDropPublication(f: Faults) returns (dropped: bool)
      modifies this`publications, this`attempts
      ensures attempts == old(attempts) + 1
      ensures dropped <==> "moonlink_pub" in old(publications) && "moonlink_pub" !in publications
      ensures dropped <==> "moonlink_pub" in old(publications) && !f.readPublication && !f.dropPublication
      ensures publications == old(publications) - if dropped then {"moonlink_pub"} else {}
    {
      attempts := attempts + 1;
      var present := !f.readPublication && PUBLICATION in publications;
      if present {
        if f.dropPublication {
          dropped := false;
        } else {
          publications := publications - {PUBLICATION};
          dropped := true;
        }
      } else {
        dropped := false;
      }
    }

    /**
     drop_orphan_slots. One row per orphan in listing order, failed or not; exactly the
     orphans whose drop succeeded disappear; the publication is tried exactly once when
     no mooncake table remains and never otherwise, and only the last row reports it.
     */
    method DropOrphanSlots(f: Faults) returns (out: seq<Row>)
      requires Valid()
      modifies this`slots, this`publications, this`attempts, this`issued
      ensures Valid()
      ensures var orphans := Orphans(current, old(mirrors), old(slots));
              var went := "moonlink_pub" in old(publications) && "moonlink_pub" !in publications;
              && out == Report(orphans, went)
              && (if orphans == [] then out == if went then [Row("", None, true)] else []
                  else |out| == |orphans| && forall k | 0 <= k < |out| ::
                         out[k] == Row(orphans[k].name, orphans[k].pid, k == |orphans| - 1 && went))
              && Left(slots, publications) == Leaves(Rust, current, old(mirrors), old(slots), old(publications), f)
              && issued == old(issued) + Requests(Rust, f, orphans)
      ensures attempts == old(attempts) + if mirrors == 0 then 1 else 0
    {
      var noMirrors := mirrors == 0;
      var orphans := if noMirrors then LocalSlots(current, slots) else [];
      OrphansArePresent(current, slots);
      out := DropEach(orphans, f);
      WithoutDistinct(old(slots), Drops(Rust, f, orphans));
      if orphans != [] {
        RowsAreTheReport(out, orphans, PUBLICATION in old(publications) && PUBLICATION !in publications);
      }
      if out == [] && noMirrors {
        var dropped := AttemptDropPublication(f);
        if dropped {
          out := out + [Row("", None, true)];
        }
      }
    }

    /** The loop of drop_orphan_slots; on the last orphan the publication is tried too. */
    method DropEach(orphans: seq<Slot>, f: Faults) returns (out: seq<Row>)
      modifies this`slots, this`publications, this`attempts, this`issued
      ensures slots == Without(old(slots), Drops(Rust, f, orphans))
      ensures issued == old(issued) + Requests(Rust, f, orphans)
      ensures RowsFor(out, orphans, |orphans|, PUBLICATION in old(publications) && PUBLICATION !in publications)
      ensures attempts == old(attempts) + if orphans == [] then 0 else 1
      ensures publications == old(publications) -
              if orphans != [] && !f.readPublication && !f.dropPublication then {PUBLICATION} else {}
    {
      out := [];
      var total := |orphans|;
      for i := 0 to total
        invariant slots == RunSlots(Rust, f, old(slots), orphans, i)
        invariant issued == old(issued) + RequestsUpTo(Rust, f, orphans, i)
        invariant i < total || total == 0 ==> publications == old(publications) && attempts == old(attempts)
        invariant i == total > 0 ==>
                    && attempts == old(attempts) + 1
                    && publications == old(publications) -
                         (if !f.readPublication && !f.dropPublication then {PUBLICATION} else {})
        invariant RowsFor(out, orphans, i, i == total && PUBLICATION in old(publications)
                  && PUBLICATION !in publications)
      {
        var slot := orphans[i];
        RemoveOrphan(slot, f);
        var last: nat := total - 1;
        var isLast := i == last;
        var dropped := false;
        if isLast {
          dropped := AttemptDropPublication(f);
        }
        RowsForGrows(out, orphans, i, dropped);
        out := out + [Row(slot.name, slot.pid, dropped)];
      }
      RunRemovesDrops(Rust, f, old(slots), orphans, total);
    }

    /** DROP PUBLICATION IF EXISTS, a DDL command: if it drops something, sql_drop fires again. */
    method DropPublicationCommand(f: Faults)
      requires Valid()
      modifies this
      ensures Valid() && SameExceptPublication(old(slots), old(mirrors), old(watcherTrigger), old(watcherFunction),
              old(issued), old(attempts))
      ensures publications == old(publications) - if f.dropPublication then {} else {PUBLICATION}
      ensures firings == old(firings) +
              if watcherTrigger && PUBLICATION in old(publications) && !f.dropPublication then 1 else 0
      decreases 0, 1
    {
      if f.dropPublication {
        return;
      }
      var present := PUBLICATION in publications;
      publications := publications - {PUBLICATION};
      if present && watcherTrigger {
        DropCleanup([Object("publication", PUBLICATION)], f);
      }
    }

    predicate SameExceptPublication(slots: seq<Slot>, mirrors: nat, trigger: bool, function_: bool,
        issued: seq<Request>, attempts: nat)
      reads this
    {
      this.slots == slots && this.mirrors == mirrors && this.watcherTrigger == trigger
      && this.watcherFunction == function_ && this.issued == issued && this.attempts == attempts
    }

    /**
     mooncake_extension_drop_cleanup, run by its event trigger on sql_drop. Without the
     extension among the dropped objects it changes nothing.
     */
    method DropCleanup(dropped: seq<Object>, f: Faults)
      requires Valid()
      modifies this
      ensures Valid()
      ensures Object("extension", "pg_mooncake") !in dropped ==>
                && publications == old(publications) && firings == old(firings) + 1
                && SameExceptPublication(old(slots), old(mirrors), old(watcherTrigger), old(watcherFunction),
                    old(issued), old(attempts))
      ensures Object("extension", "pg_mooncake") in dropped ==>
                && Left(slots, publications) == Leaves(Plpgsql, current, old(mirrors), old(slots), old(publications), f)
                && issued == old(issued) + Requests(Plpgsql, f, LocalSlots(current, old(slots)))
                && mirrors == old(mirrors) && attempts == old(attempts)
                && firings == old(firings) + 1 +
                     (if old(watcherTrigger) && "moonlink_pub" in old(publications) && !f.dropPublication then 1 else 0)
                && (if f.dropTrigger || f.dropFunction
                    then watcherTrigger == old(watcherTrigger) && watcherFunction == old(watcherFunction)
                    else !watcherTrigger && !watcherFunction)
      decreases if DropsExtension(dropped) then 1 else 0, 0
    {
      firings := firings + 1;
      if !DropsExtension(dropped) {
        return;
      }
      var found := LocalSlots(current, slots);
      OrphansArePresent(current, slots);
      DropLeftovers(found, f);
      WithoutDistinct(old(slots), Drops(Plpgsql, f, found));
      DropPublicationCommand(f);
      SelfRemove(f);
    }

    /** The FOR slot IN ... LOOP of the watcher. */
    method DropLeftovers(found: seq<Slot>, f: Faults)
      modifies this`slots, this`issued
      ensures slots == Without(old(slots), Drops(Plpgsql, f, found))
      ensures issued == old(issued) + Requests(Plpgsql, f, found)
    {
      for i := 0 to |found|
        invariant slots == RunSlots(Plpgsql, f, old(slots), found, i)
        invariant issued == old(issued) + RequestsUpTo(Plpgsql, f, found, i)
      {
        RemoveInBlock(found[i], f);
      }
      RunRemovesDrops(Plpgsql, f, old(slots), found, |found|);
    }

    /** The last BEGIN ... EXCEPTION block: what it did is undone if it raises. */
    method SelfRemove(f: Faults)
      modifies this`watcherTrigger, this`watcherFunction
      ensures if f.dropTrigger || f.dropFunction
              then watcherTrigger == old(watcherTrigger) && watcherFunction == old(watcherFunction)
              else !watcherTrigger && !watcherFunction
    {
      var trigger, body := watcherTrigger, watcherFunction;
      var raised := f.dropTrigger;
      if !raised {
        watcherTrigger := false;
        raised := f.dropFunction;
        if !raised {
          watcherFunction := false;
        }
      }
      if raised {
        watcherTrigger, watcherFunction := trigger, body;
      }
    }
  }

  lemma WithoutDistinct(slots: seq<Slot>, gone: set<string>)
    requires Distinct(slots)
    ensures Distinct(Without(slots, gone))
  {
    WithoutIsFilter(slots, gone);
    FilterDistinct((slot: Slot) => slot.name !in gone, slots);
  }

  lemma {:induction false} FilterDistinct(keep: Slot -> bool, slots: seq<Slot>)
    requires Distinct(slots)
    ensures Distinct(Filter(keep, slots)) && Names(Filter(keep, slots)) <= Names(slots)
  {
    if slots != [] {
      var rest := Filter(keep, slots[1..]);
      FilterDistinct(keep, slots[1..]);
      assert slots[0].name in Names(slots);
      forall x | x in Names(slots[1..]) ensures x in Names(slots) {
        var k :| 0 <= k < |slots[1..]| && slots[1..][k].name == x;
        assert slots[k + 1].name == x;
      }
      assert ([slots[0]] + rest)[1..] == rest;
      forall x | x in Names([slots[0]] + rest) ensures x == slots[0].name || x in Names(rest) {
        var k :| 0 <= k < |rest| + 1 && ([slots[0]] + rest)[k].name == x;
        if k > 0 { assert rest[k - 1].name in Names(rest); }
      }
    }
  }

  lemma OrphansArePresent(current: string, slots: seq<Slot>)
    requires Distinct(slots)
    ensures Distinct(LocalSlots(current, slots))
    ensures forall slot :: slot in LocalSlots(current, slots) ==> slot in slots
  {
    var keep := (slot: Slot) => Selected(current, slot);
    FilterDistinct(keep, slots);
    forall slot | slot in LocalSlots(current, slots) ensures slot in slots {
      FilterMember(keep, slots, slot);
    }
  }

  lemma DropsOf(style: Style, current: string, mirrors: nat, slots: seq<Slot>, f: Faults, slot: Slot)
    requires Distinct(slots) && slot in slots
    ensures slot.name in Drops(style, f, Orphans(current, mirrors, slots)) <==>
            mirrors == 0 && Selected(current, slot) && !Stuck(style, f, slot)
  {
    var orphans := Orphans(current, mirrors, slots);
    DropsMember(style, f, orphans, |orphans|, slot.name);
    FilterMember((s: Slot) => Selected(current, s), slots, slot);
    OrphansArePresent(current, slots);
    var i :| 0 <= i < |slots| && slots[i] == slot;
    forall k | 0 <= k < |orphans| && orphans[k].name == slot.name ensures orphans[k] == slot {
      assert orphans[k] in orphans;
      var j :| 0 <= j < |slots| && slots[j] == orphans[k];
      DistinctAt(slots, i, j);
    }
  }

  lemma RemovedAre(style: Style, current: string, mirrors: nat, slots: seq<Slot>, f: Faults, stays: Slot -> bool)
    requires Distinct(slots)
    requires forall slot :: stays(slot) <==> mirrors > 0 || !Selected(current, slot) || Stuck(style, f, slot)
    ensures Without(slots, Drops(style, f, Orphans(current, mirrors, slots))) == Filter(stays, slots)
  {
    var gone := Drops(style, f, Orphans(current, mirrors, slots));
    WithoutIsFilter(slots, gone);
    forall slot | slot in slots ensures slot.name !in gone <==> stays(slot) {
      DropsOf(style, current, mirrors, slots, f, slot);
    }
    FilterSame((slot: Slot) => slot.name !in gone, stays, slots);
  }

  /** A slot of this database that moonlink made. */
  predicate Ours(current: string, slot: Slot) {
    && slot.database == Some(current)
    && |slot.name| >= 14 && slot.name[..8] == "moonlink" && slot.name[9..13] == "slot"
  }

  /**
   Exactly moonlink's slots of this database whose removal succeeded go; every other slot
   stays in its place. drop_orphan_slots acts only when no mooncake table remains, and
   ignores whether the holder could be terminated; for the watcher neither is so. The
   publication goes unless one of the calls it takes fails.
   */
  lemma ExactlyTheOrphansGo(current: string, mirrors: nat, slots: seq<Slot>, publications: set<string>, f: Faults)
    requires Distinct(slots)
    ensures Leaves(Rust, current, mirrors, slots, publications, f) == Left(
              Filter((slot: Slot) => mirrors > 0 || !Ours(current, slot) || f.drop(slot.name), slots),
              if mirrors > 0 || f.readPublication || f.dropPublication then publications
              else publications - {"moonlink_pub"})
    ensures Leaves(Plpgsql, current, mirrors, slots, publications, f) == Left(
              Filter((slot: Slot) => !Ours(current, slot) || f.drop(slot.name)
                       || (slot.pid.Some? && f.terminate(slot.pid.value)), slots),
              if f.dropPublication then publications else publications - {"moonlink_pub"})
  {
    forall slot ensures Selected(current, slot) <==> Ours(current, slot) {
      SelectedIff(current, slot);
    }
    RemovedAre(Rust, current, mirrors, slots, f,
               (slot: Slot) => mirrors > 0 || !Ours(current, slot) || f.drop(slot.name));
    RemovedAre(Plpgsql, current, 0, slots, f, (slot: Slot) => !Ours(current, slot) || f.drop(slot.name)
                 || (slot.pid.Some? && f.terminate(slot.pid.value)));
    assert publications - {} == publications;
  }

  // -------------------------------------------------------- the two cleanups compared

  lemma WithoutSame(slots: seq<Slot>, a: set<string>, b: set<string>, slot: Slot)
    requires Without(slots, a) == Without(slots, b) && slot in slots
    ensures slot.name in a <==> slot.name in b
  {
    WithoutMember(slots, a, slot);
    WithoutMember(slots, b, slot);
  }

  lemma SlotsAgreeIff(current: string, slots: seq<Slot>, f: Faults)
    requires Distinct(slots)
    ensures var orphans := LocalSlots(current, slots);
            Without(slots, Drops(Rust, f, orphans)) == Without(slots, Drops(Plpgsql, f, orphans))
            <==> forall slot :: slot in orphans && slot.pid.Some? && f.terminate(slot.pid.value) ==> f.drop(slot.name)
  {
    var orphans := LocalSlots(current, slots);
    OrphansArePresent(current, slots);
    if forall slot :: slot in orphans && slot.pid.Some? && f.terminate(slot.pid.value) ==> f.drop(slot.name) {
      assert forall k | 0 <= k < |orphans| :: orphans[k] in orphans;
      forall x ensures x in Drops(Rust, f, orphans) <==> x in Drops(Plpgsql, f, orphans) {
        DropsMember(Rust, f, orphans, |orphans|, x);
        DropsMember(Plpgsql, f, orphans, |orphans|, x);
      }
      assert Drops(Rust, f, orphans) == Drops(Plpgsql, f, orphans);
    } else {
      var slot :| slot in orphans && slot.pid.Some? && f.terminate(slot.pid.value) && !f.drop(slot.name);
      var k :| 0 <= k < |orphans| && orphans[k] == slot;
      DropsMember(Rust, f, orphans, |orphans|, slot.name);
      DropsMember(Plpgsql, f, orphans, |orphans|, slot.name);
      forall j | 0 <= j < |orphans| && orphans[j].name == slot.name ensures j == k {
        DistinctAt(orphans, j, k);
      }
      if Without(slots, Drops(Rust, f, orphans)) == Without(slots, Drops(Plpgsql, f, orphans)) {
        WithoutSame(slots, Drops(Rust, f, orphans), Drops(Plpgsql, f, orphans), slot);
      }
    }
  }

  /**
   On the same catalog without mooncake tables the two cleanups leave the same slots and
   publications exactly when no active slot that could be dropped fails to be terminated,
   and no publication that could be dropped fails to be looked up.
   */
  lemma CleanupsAgreeIff(current: string, slots: seq<Slot>, publications: set<string>, f: Faults)
    requires Distinct(slots)
    ensures Leaves(Rust, current, 0, slots, publications, f) == Leaves(Plpgsql, current, 0, slots, publications, f)
            <==>
            && (forall slot :: slot in slots && Selected(current, slot) && slot.pid.Some? && f.terminate(slot.pid.value)
                  ==> f.drop(slot.name))
            && (PUBLICATION in publications && f.readPublication ==> f.dropPublication)
  {
    SlotsAgreeIff(current, slots, f);
    forall slot ensures slot in LocalSlots(current, slots) <==> slot in slots && Selected(current, slot) {
      FilterMember((s: Slot) => Selected(current, s), slots, slot);
    }
    PublicationsAgreeIff(publications, f);
  }

  lemma PublicationsAgreeIff(publications: set<string>, f: Faults)
    ensures publications - (if !f.readPublication && !f.dropPublication then {PUBLICATION} else {}) ==
            publications - (if f.dropPublication then {} else {PUBLICATION})
            <==> (PUBLICATION in publications && f.readPublication ==> f.dropPublication)
  {
    if PUBLICATION in publications && f.readPublication && !f.dropPublication {
      assert PUBLICATION in publications - {} && PUBLICATION !in publications - {PUBLICATION};
    }
  }

  /** After a run the orphans are, in order, those whose drop failed: a rerun acts on exactly the survivors. */
  lemma RerunActsOnSurvivors(current: string, slots: seq<Slot>, f: Faults)
    requires Distinct(slots)
    ensures var orphans := LocalSlots(current, slots);
            LocalSlots(current, Without(slots, Drops(Rust, f, orphans))) ==
            Filter((slot: Slot) => f.drop(slot.name), orphans)
  {
    var orphans := LocalSlots(current, slots);
    OrphansArePresent(current, slots);
    LocalAfterRemoval(current, slots, Drops(Rust, f, orphans));
    forall slot | slot in orphans ensures slot.name !in Drops(Rust, f, orphans) <==> f.drop(slot.name) {
      var k :| 0 <= k < |orphans| && orphans[k] == slot;
      DropsMember(Rust, f, orphans, |orphans|, slot.name);
    }
    WithoutIsFilter(orphans, Drops(Rust, f, orphans));
    FilterSame((slot: Slot) => slot.name !in Drops(Rust, f, orphans), (slot: Slot) => f.drop(slot.name), orphans);
  }

  lemma {:induction false} FilterSame(p: Slot -> bool, q: Slot -> bool, slots: seq<Slot>)
    requires forall slot :: slot in slots ==> (p(slot) <==> q(slot))
    ensures Filter(p, slots) == Filter(q, slots)
  {
    if slots != [] {
      assert slots[0] in slots && forall slot :: slot in slots[1..] ==> slot in slots;
      FilterSame(p, q, slots[1..]);
    }
  }

  /**
   After an error-free run nothing is flagged any more, and a second run has no slot to act
   on, drops no publication and returns no row.
   */
  lemma CleanRunLeavesNoOrphan(current: string, slots: seq<Slot>, publications: set<string>, f: Faults, g: Faults)
    requires Distinct(slots) && forall slot :: slot in LocalSlots(current, slots) ==> !f.drop(slot.name)
    requires !f.readPublication && !f.dropPublication
    ensures var after := Leaves(Rust, current, 0, slots, publications, f);
            var again := Leaves(Rust, current, 0, after.slots, after.publications, g);
            && (forall r :: r in ListOrphanSlots(current, 0, after.slots) ==> !r.isOrphan)
            && again == after
            && Report(Orphans(current, 0, after.slots),
                      PUBLICATION in after.publications && PUBLICATION !in again.publications) == []
  {
    var orphans := LocalSlots(current, slots);
    var after := Leaves(Rust, current, 0, slots, publications, f);
    RerunActsOnSurvivors(current, slots, f);
    OrphansArePresent(current, slots);
    NothingKept((slot: Slot) => f.drop(slot.name), orphans);
    assert Orphans(current, 0, after.slots) == [];
    forall r | r in ListOrphanSlots(current, 0, after.slots) ensures !r.isOrphan {
      if r.isOrphan {
        var slot := FlaggedRow(current, 0, after.slots, r);
      }
    }
    WithoutNothing(after.slots);
  }

  lemma {:induction false} NothingKept(keep: Slot -> bool, slots: seq<Slot>)
    requires forall slot :: slot in slots ==> !keep(slot)
    ensures Filter(keep, slots) == []
  {
    if slots != [] {
      assert slots[0] in slots && forall slot :: slot in slots[1..] ==> slot in slots;
      NothingKept(keep, slots[1..]);
    }
  }
}
