/** What becomes of an alert's severity on its way from the host's scale to the display's. */
module SatSeverity {
  import opened Bytes
  import opened JsonText
  import opened SatProtocol
  import opened SatReceiver
  import opened SatFirmware
  import opened SatEncoder
  import opened SatLink

  datatype Grade = NoAlert | InfoGrade | WarningGrade | CriticalGrade

  /** The host counts from info at 0 to critical at 2. */
  const HOST_CRITICAL: byte := 2

  function HostGrade(n: byte): Grade {
    if n == 0 then InfoGrade else if n == 1 then WarningGrade else CriticalGrade
  }

  /** The display counts from none at 0 to critical at 3. */
  function DisplayGrade(n: byte): Grade {
    if n >= 3 then CriticalGrade else if n == 2 then WarningGrade else if n == 1 then InfoGrade else NoAlert
  }

  function Rank(g: Grade): nat {
    match g
    case NoAlert => 0
    case InfoGrade => 1
    case WarningGrade => 2
    case CriticalGrade => 3
  }

  /** Every severity that counts is one of the host's. */
  predicate HostSeverities(entries: seq<Json>) {
    forall i :: 0 <= i < |entries| && Counts(entries[i]) ==>
      SeverityFits(entries[i]) && SeverityOf(entries[i]) <= HOST_CRITICAL
  }

  predicate AnyCounts(entries: seq<Json>) { exists i :: 0 <= i < |entries| && Counts(entries[i]) }

  /** The grade an entry has on the host. */
  function GradeOf(entry: Json): Grade
    requires Counts(entry) ==> SeverityFits(entry)
  {
    if Counts(entry) then HostGrade(SeverityOf(entry)) else NoAlert
  }

  /** The worst grade among active alerts, on the host. */
  function WorstGrade(entries: seq<Json>): Grade
    requires HostSeverities(entries)
  {
    hide Counts, SeverityFits, SeverityOf;
    if entries == [] then NoAlert else
    var m := |entries| - 1;
    var w, g := WorstGrade(entries[..m]), GradeOf(entries[m]);
    if Rank(g) > Rank(w) then g else w
  }

  /** No entry is worse, and any grade but none is that of an entry. */
  lemma {:induction false} WorstGradeIsWorst(entries: seq<Json>, i: nat) returns (k: nat)
    requires HostSeverities(entries) && i < |entries|
    ensures Rank(GradeOf(entries[i])) <= Rank(WorstGrade(entries))
    ensures k < |entries| && (WorstGrade(entries) != NoAlert ==> GradeOf(entries[k]) == WorstGrade(entries))
    decreases |entries|
  {
    hide Counts, SeverityFits, SeverityOf, HostGrade, GradeOf;
    var m := |entries| - 1;
    k := m;
    if m > 0 {
      var j := WorstGradeIsWorst(entries[..m], if i < m then i else 0);
      if Rank(GradeOf(entries[m])) <= Rank(WorstGrade(entries[..m])) { k := j; }
    }
  }

  /** The number the encoder sends is one less than the rank of the worst grade, or 0 for none. */
  lemma {:induction false} SentIsLower(entries: seq<Json>)
    requires HostSeverities(entries)
    ensures WorstSeverity(entries) <= HOST_CRITICAL
    ensures if AnyCounts(entries) then Rank(WorstGrade(entries)) == WorstSeverity(entries) + 1
            else WorstGrade(entries) == NoAlert && WorstSeverity(entries) == 0
    decreases |entries|
  {
    hide Counts, SeverityFits, SeverityOf;
    if entries != [] {
      var m := |entries| - 1;
      SentIsLower(entries[..m]);
      AnyMore(entries);
    }
  }

  lemma AnyMore(entries: seq<Json>)
    requires entries != []
    ensures AnyCounts(entries) <==> AnyCounts(entries[..|entries| - 1]) || Counts(entries[|entries| - 1])
  {
    hide Counts;
    var m := |entries| - 1;
    assert forall i :: 0 <= i < m ==> entries[i] == entries[..m][i];
    if AnyCounts(entries[..m]) {
      var i :| 0 <= i < m && Counts(entries[..m][i]);
      assert Counts(entries[i]);
    }
  }

  /**
   * The display shows the grade the worst active alert has on the host exactly when no alert counts at all: otherwise
   * it shows the next lower one, and critical is never shown.
   */
  lemma SeverityMeant(r: Rx, c: Content, root: Json, now: uint32, sequence: uint16)
    requires Resting(r) && Representable(root) && HostSeverities(AlertEntries(root))
    ensures var shown := AbsorbAll(c, Log(r, Frame(MSG_SNAPSHOT, Payload(root, now), sequence))).view.fixed.maxSeverity;
      var worst := WorstGrade(AlertEntries(root));
      && (DisplayGrade(shown) == worst <==> !AnyCounts(AlertEntries(root)))
      && (AnyCounts(AlertEntries(root)) ==> Rank(DisplayGrade(shown)) + 1 == Rank(worst))
      && DisplayGrade(shown) != CriticalGrade
  {
    hide Representable, AlertEntries, HostSeverities, AnyCounts, WorstGrade, WorstSeverity, Frame, Payload, Log,
         AbsorbAll, SatReceiver.Valid, Run;
    StatusArrives(r, c, root, now, sequence);
    SentIsLower(AlertEntries(root));
  }

  // ---- one active critical alert ----

  const ALERTS_KEY: bytes := [97, 108, 101, 114, 116, 115]
  const ACTIVE_COUNT_KEY: bytes := [97, 99, 116, 105, 118, 101, 95, 99, 111, 117, 110, 116]
  const ENTRIES_KEY: bytes := [101, 110, 116, 114, 105, 101, 115]
  const ACTIVE_KEY: bytes := [97, 99, 116, 105, 118, 101]
  const SEVERITY_KEY: bytes := [115, 101, 118, 101, 114, 105, 116, 121]

  const CRITICAL_ENTRY: Json := Object([Member(ACTIVE_KEY, True), Member(SEVERITY_KEY, Number(2.0))])
  const ALERTS_ITEM: Json :=
    Object([Member(ACTIVE_COUNT_KEY, Number(1.0)), Member(ENTRIES_KEY, Array([CRITICAL_ENTRY]))])
  const OUTAGE_STATUS: Json := Object([Member(ALERTS_KEY, ALERTS_ITEM)])

  lemma FirstMember(key: bytes, value: Json, rest: seq<Member>, name: Key)
    ensures var item := Found(Object([Member(key, value)] + rest));
      Get(item, name) == if SameName(name, key) then Found(value) else Get(Found(Object(rest)), name)
  {
    hide SameName;
    var members := [Member(key, value)] + rest;
    assert members[1..] == rest;
  }

  lemma NoMember(name: Key)
    ensures Get(Found(Object([])), name) == Missing
  {
  }

  lemma OnlyAlerts(name: Key)
    requires |Spelling(name)| != |ALERTS_KEY|
    ensures Get(Found(OUTAGE_STATUS), name) == Missing
  {
    hide Spelling;
    FirstMember(ALERTS_KEY, ALERTS_ITEM, [], name);
    NoMember(name);
    assert [Member(ALERTS_KEY, ALERTS_ITEM)] + [] == [Member(ALERTS_KEY, ALERTS_ITEM)];
  }

  lemma TheAlerts()
    ensures Get(Found(OUTAGE_STATUS), Alerts) == Found(ALERTS_ITEM)
  {
    hide Get, SameName;
    FirstMember(ALERTS_KEY, ALERTS_ITEM, [], Alerts);
    assert [Member(ALERTS_KEY, ALERTS_ITEM)] + [] == [Member(ALERTS_KEY, ALERTS_ITEM)];
    AlertNames();
  }

  lemma AlertNames()
    ensures SameName(Alerts, ALERTS_KEY) && SameName(Entries, ENTRIES_KEY)
  {
  }

  lemma CountName()
    ensures SameName(ActiveCount, ACTIVE_COUNT_KEY)
  {
  }

  lemma EntryNames()
    ensures SameName(Active, ACTIVE_KEY) && SameName(Severity, SEVERITY_KEY)
  {
  }

  lemma OtherLength(name: Key, key: bytes)
    requires |Spelling(name)| != |key|
    ensures !SameName(name, key)
  {
  }

  lemma TheEntries()
    ensures Get(Found(ALERTS_ITEM), Entries) == Found(Array([CRITICAL_ENTRY]))
    ensures Get(Found(ALERTS_ITEM), ActiveCount) == Found(Number(1.0))
  {
    hide Get, SameName;
    TwoMembers(ACTIVE_COUNT_KEY, Number(1.0), ENTRIES_KEY, Array([CRITICAL_ENTRY]), Entries);
    TwoMembers(ACTIVE_COUNT_KEY, Number(1.0), ENTRIES_KEY, Array([CRITICAL_ENTRY]), ActiveCount);
    AlertNames();
    CountName();
    OtherLength(Entries, ACTIVE_COUNT_KEY);
  }

  lemma TwoMembers(k0: bytes, v0: Json, k1: bytes, v1: Json, name: Key)
    ensures Get(Found(Object([Member(k0, v0), Member(k1, v1)])), name) ==
      if SameName(name, k0) then Found(v0) else if SameName(name, k1) then Found(v1) else Missing
  {
    hide Get, SameName;
    assert [Member(k0, v0)] + [Member(k1, v1)] == [Member(k0, v0), Member(k1, v1)];
    assert [Member(k1, v1)] + [] == [Member(k1, v1)];
    FirstMember(k0, v0, [Member(k1, v1)], name);
    FirstMember(k1, v1, [], name);
    NoMember(name);
  }

  lemma TheEntry()
    ensures Counts(CRITICAL_ENTRY) && SeverityFits(CRITICAL_ENTRY) && SeverityOf(CRITICAL_ENTRY) == HOST_CRITICAL
  {
    hide Get, SameName;
    TwoMembers(ACTIVE_KEY, True, SEVERITY_KEY, Number(2.0), Active);
    TwoMembers(ACTIVE_KEY, True, SEVERITY_KEY, Number(2.0), Severity);
    EntryNames();
    OtherLength(Severity, ACTIVE_KEY);
  }

  lemma MissingFits(name: Key, scale: real, lo: int, hi: int)
    ensures Fits(Get(Missing, name), scale, lo, hi)
  {
  }

  lemma OutageIsRepresentable()
    ensures Representable(OUTAGE_STATUS) && AlertEntries(OUTAGE_STATUS) == [CRITICAL_ENTRY]
  {
    hide Get, SeverityFits, Counts;
    OnlyAlerts(Info);
    OnlyAlerts(Connectivity);
    OnlyAlerts(Wan);
    OnlyAlerts(Interfaces);
    TheAlerts();
    TheEntries();
    TheEntry();
    forall name: Key, scale: real, lo: int, hi: int ensures Fits(Get(Missing, name), scale, lo, hi) {
      MissingFits(name, scale, lo, hi);
    }
  }

  /** A document with one active critical alert arrives as 2, which the display shows as a warning. */
  lemma CriticalShownAsWarning(r: Rx, c: Content, now: uint32, sequence: uint16)
    requires Resting(r)
    ensures Representable(OUTAGE_STATUS) && HostSeverities(AlertEntries(OUTAGE_STATUS))
    ensures WorstGrade(AlertEntries(OUTAGE_STATUS)) == CriticalGrade
    ensures var frame := Frame(MSG_SNAPSHOT, Payload(OUTAGE_STATUS, now), sequence);
      var shown := AbsorbAll(c, Log(r, frame)).view.fixed.maxSeverity;
      shown == 2 && DisplayGrade(shown) == WarningGrade
  {
    hide Representable, AlertEntries, Frame, Payload, Log, AbsorbAll, SatReceiver.Valid, Run, SeverityOf, SeverityFits,
         Counts;
    OutageIsRepresentable();
    TheEntry();
    var entries := [CRITICAL_ENTRY];
    assert entries[..0] == [];
    StatusArrives(r, c, OUTAGE_STATUS, now, sequence);
  }
}
