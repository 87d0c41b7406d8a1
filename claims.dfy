/**
 * The data shaping of the reward-claim script: which weeks are pending,
 * how each week is paired with its IPFS report, which weeks yield a claim
 * for an account, and the tuples handed to the Merkle-redeem contract.
 * Every network response (snapshot download, claim-status call, IPFS
 * gateway) is an input; the Merkle tree and the leaf hash are parameters.
 */
module Claims {
  import opened Wrappers
  import opened Decimal
  import opened Units
  import opened JsObject

  /** The chain ids the script's network type admits. */
  type NetworkId = n: int | n == 1 || n == 3 || n == 4 || n == 5 || n == 42 || n == 137 || n == 42161 witness 1

  /** The networks with an entry in the constants table (mainnet and Kovan); each has a snapshot URL. */
  const ConfiguredNetworks: set<NetworkId> := {1, 42}

  type Address = string
  type ContentId = string

  /** An IPFS report: recipient address to reward amount (a decimal string). */
  type Report = map<Address, string>

  /** The snapshot: week key to the IPFS hash of that week's report. */
  type Snapshot = map<string, ContentId>

  /** Reports by week key. */
  type Reports = map<string, Report>

  /** What the IPFS gateway serves: hash to report; a hash missing here is a failed request. */
  type Gateway = map<ContentId, Report>

  datatype Claim = Claim(id: string, amount: string, amountDenorm: int)

  datatype PendingClaims = PendingClaims(claims: seq<Claim>, reports: Reports)

  /** The arguments of the contract's `claimStatus(account, begin, end)` call. */
  datatype StatusQuery = StatusQuery(account: Address, begin: int, end: int)

  /** The contract's answer to a status query. */
  type Ledger = StatusQuery -> Fetch<seq<bool>>

  datatype ClaimError =
    | SnapshotUnavailable
    | ClaimStatusUnavailable
    | ReportUnavailable
    | BadAmount(cause: AmountError)

  /** One entry of the claim list: week number, amount in wei, Merkle proof. */
  datatype ClaimTuple = ClaimTuple(week: Option<int>, amount: int, proof: seq<string>)

  // ----- Snapshot and status query -----

  /**
   * The snapshot for `network`. `response` is the download: rejected, or
   * resolved with a body that is either absent/falsy (`None`) or an object.
   */
  function GetSnapshot(network: NetworkId, response: Fetch<Option<Snapshot>>): (r: Result<Snapshot, ClaimError>)
    ensures network !in ConfiguredNetworks ==> r == Success(map[])
    ensures network in ConfiguredNetworks && response == Resolved(None) ==> r == Success(map[])
    ensures network in ConfiguredNetworks && response.Resolved? && response.value.Some? ==> r == Success(response.value.value)
    ensures r.Failure? <==> network in ConfiguredNetworks && response.Rejected?
    ensures r.Failure? ==> r.error == SnapshotUnavailable
  {
    if network !in ConfiguredNetworks then Success(map[])
    else match response
      case Rejected => Failure(SnapshotUnavailable)
      case Resolved(body) => Success(if body.Some? then body.value else map[])
  }

  /** The status query for `account`: periods 1 up to the number of snapshot keys. */
  function ClaimStatusQuery(account: Address, snapshot: Snapshot): StatusQuery
  {
    StatusQuery(account, 1, |snapshot|)
  }

  /** For a snapshot holding weeks 1 to n, the status query covers exactly periods 1 to n. */
  lemma StatusQueryCoversWeeks(account: Address, snapshot: Snapshot, n: nat)
    requires snapshot.Keys == set w | 1 <= w <= n :: WeekKey(w)
    ensures ClaimStatusQuery(account, snapshot) == StatusQuery(account, 1, n)
  {
    WeekKeysCount(n);
  }

  /** Weeks 1 to n have n distinct keys. */
  lemma {:induction false} WeekKeysCount(n: nat)
    ensures |set w | 1 <= w <= n :: WeekKey(w)| == n
  {
    if n > 0 {
      WeekKeysCount(n - 1);
      WeekKeysSnoc(n);
      NewWeekKey(n);
    }
  }

  lemma WeekKeysSnoc(n: nat)
    requires n > 0
    ensures (set w | 1 <= w <= n :: WeekKey(w)) == (set w | 1 <= w <= n - 1 :: WeekKey(w)) + {WeekKey(n)}
  {
  }

  lemma NewWeekKey(n: nat)
    ensures WeekKey(n) !in set w | 1 <= w <= n - 1 :: WeekKey(w)
  {
    forall w | 1 <= w <= n - 1 ensures WeekKey(w) != WeekKey(n) {
      WeekKeyValue(w);
      WeekKeyValue(n);
    }
  }

  // ----- Pending weeks -----

  /** The week numbers derived from the status list, with the status filter disabled as in the source. */
  function PendingWeeks(status: seq<bool>): (weeks: seq<nat>)
    ensures |weeks| == |status|
    ensures forall i :: 0 <= i < |weeks| ==> weeks[i] == i + 1
  {
    var numbered := seq(|status|, i requires 0 <= i < |status| => (i + 1, status[i]));
    seq(|numbered|, i requires 0 <= i < |numbered| => numbered[i].0)
  }

  /** The weeks strictly ascend. */
  predicate Ascending(weeks: seq<nat>)
  {
    forall i, j :: 0 <= i < j < |weeks| ==> weeks[i] < weeks[j]
  }

  lemma PendingWeeksAreOneToN(status: seq<bool>)
    ensures Ascending(PendingWeeks(status))
    ensures forall w :: w in PendingWeeks(status) <==> 1 <= w <= |status|
  {
    var weeks := PendingWeeks(status);
    forall w | 1 <= w <= |status| ensures w in weeks {
      assert weeks[w - 1] == w;
    }
  }

  /** As written, the status bits play no part: only the length of the list matters. */
  lemma PendingWeeksIgnoreStatus(status: seq<bool>, i: nat)
    requires i < |status|
    ensures PendingWeeks(status[i := !status[i]]) == PendingWeeks(status)
  {
  }

  /**
   * Not the source's behaviour: the weeks the disabled filter would keep,
   * those whose status is false (unclaimed).
   */
  function UnclaimedWeeks(status: seq<bool>): (weeks: seq<nat>)
    ensures forall w :: w in weeks <==> 1 <= w <= |status| && !status[w - 1]
    ensures Ascending(weeks)
  {
    if status == [] then []
    else
      var init := UnclaimedWeeks(status[..|status| - 1]);
      assert forall w :: w in init ==> status[..|status| - 1][w - 1] == status[w - 1];
      assert forall i :: 0 <= i < |init| ==> init[i] < |status| by {
        forall i | 0 <= i < |init| ensures init[i] < |status| {
          assert init[i] in init;
        }
      }
      if status[|status| - 1] then init else init + [|status|]
  }

  /** The disabled filter matters: with any week already claimed, the two lists differ. */
  lemma ClaimedWeekIsStillPending(status: seq<bool>, i: nat)
    requires i < |status| && status[i]
    ensures i + 1 in PendingWeeks(status)
    ensures i + 1 !in UnclaimedWeeks(status)
  {
    assert PendingWeeks(status)[i] == i + 1;
  }

  // ----- Reports -----

  /** The object key of a week number. */
  function WeekKey(week: nat): (k: string)
  {
    DecimalString(week)
  }

  lemma WeekKeyValue(week: nat)
    ensures IsCanonical(WeekKey(week)) && IndexValue(WeekKey(week)) == week
  {
  }

  /** The IPFS hash the script requests for `week`: the snapshot's entry, or the text "undefined" when there is none. */
  function ReportHash(snapshot: Snapshot, week: nat): ContentId
  {
    var key := WeekKey(week);
    if key in snapshot then snapshot[key] else "undefined"
  }

  /**
   * Indexing the snapshot with the number `week` finds the key that spells
   * that number; with no such key the hash is the text "undefined".
   */
  lemma ReportHashLooksUpWeek(snapshot: Snapshot, week: nat)
    ensures forall k :: k in snapshot && IsCanonical(k) && IndexValue(k) == week ==> ReportHash(snapshot, week) == snapshot[k]
    ensures (forall k :: k in snapshot ==> !IsCanonical(k) || IndexValue(k) != week) ==> ReportHash(snapshot, week) == "undefined"
  {
    forall k | k in snapshot && IsCanonical(k) && IndexValue(k) == week ensures k == WeekKey(week) {
      CanonicalIsDecimalString(k);
    }
    WeekKeyValue(week);
  }

  /** All the report downloads together; one failure fails them all. */
  function FetchReports(snapshot: Snapshot, weeks: seq<nat>, gateway: Gateway): (r: Option<seq<Report>>)
    ensures r.Some? <==> forall i :: 0 <= i < |weeks| ==> ReportHash(snapshot, weeks[i]) in gateway
    ensures r.Some? ==> |r.value| == |weeks|
    ensures r.Some? ==> forall i :: 0 <= i < |weeks| ==> r.value[i] == gateway[ReportHash(snapshot, weeks[i])]
  {
    if weeks == [] then Some([])
    else
      var hash := ReportHash(snapshot, weeks[0]);
      match FetchReports(snapshot, weeks[1..], gateway)
      case None => None
      case Some(rest) => if hash in gateway then Some([gateway[hash]] + rest) else None
  }

  /** Each week's key paired with its report, in week order. */
  function KeyedReports(weeks: seq<nat>, reports: seq<Report>): (entries: seq<Entry<Report>>)
    requires |reports| == |weeks|
  {
    seq(|weeks|, i requires 0 <= i < |weeks| => (WeekKey(weeks[i]), reports[i]))
  }

  /** The reports of `weeks`, keyed by week. */
  function GetReports(snapshot: Snapshot, weeks: seq<nat>, gateway: Gateway): (r: Result<Reports, ClaimError>)
    ensures r.Success? <==> forall w :: w in weeks ==> ReportHash(snapshot, w) in gateway
    ensures r.Failure? ==> r.error == ReportUnavailable
    ensures r.Success? ==> r.value.Keys == set w | w in weeks :: WeekKey(w)
    ensures r.Success? ==> forall w :: w in weeks ==> r.value[WeekKey(w)] == gateway[ReportHash(snapshot, w)]
  {
    match FetchReports(snapshot, weeks, gateway)
    case None => Failure(ReportUnavailable)
    case Some(reports) =>
      var entries := KeyedReports(weeks, reports);
      KeyedReportsFacts(snapshot, weeks, gateway, reports);
      Success(FromEntries(entries))
  }

  lemma WeekKeyInjective(a: nat, b: nat)
    requires WeekKey(a) == WeekKey(b)
    ensures a == b
  {
    WeekKeyValue(a);
    WeekKeyValue(b);
  }

  lemma KeyedReportsFacts(snapshot: Snapshot, weeks: seq<nat>, gateway: Gateway, reports: seq<Report>)
    requires FetchReports(snapshot, weeks, gateway) == Some(reports)
    ensures KeysOf(KeyedReports(weeks, reports)) == set w | w in weeks :: WeekKey(w)
    ensures forall w :: w in weeks ==> WeekKey(w) in FromEntries(KeyedReports(weeks, reports))
                                       && FromEntries(KeyedReports(weeks, reports))[WeekKey(w)] == gateway[ReportHash(snapshot, w)]
  {
    var entries := KeyedReports(weeks, reports);
    KeyedReportsAreConsistent(weeks, reports);
    FromEntriesKeepsConsistentEntries(entries);
    var m := FromEntries(entries);
    forall w | w in weeks
      ensures WeekKey(w) in m && m[WeekKey(w)] == gateway[ReportHash(snapshot, w)]
    {
      var i :| 0 <= i < |weeks| && weeks[i] == w;
      assert entries[i].0 == WeekKey(w) && entries[i].1 == reports[i];
    }
    KeyedReportsKeys(weeks, reports);
  }

  lemma KeyedReportsAreConsistent(weeks: seq<nat>, reports: seq<Report>)
    requires |reports| == |weeks|
    requires forall i, j :: 0 <= i < |weeks| && 0 <= j < |weeks| && weeks[i] == weeks[j] ==> reports[i] == reports[j]
    ensures var entries := KeyedReports(weeks, reports);
      forall i, j :: 0 <= i < |entries| && 0 <= j < |entries| && entries[i].0 == entries[j].0 ==> entries[i].1 == entries[j].1
  {
    var entries := KeyedReports(weeks, reports);
    forall i, j | 0 <= i < |entries| && 0 <= j < |entries| && entries[i].0 == entries[j].0
      ensures entries[i].1 == entries[j].1
    {
      WeekKeyInjective(weeks[i], weeks[j]);
    }
  }

  lemma KeyedReportsKeys(weeks: seq<nat>, reports: seq<Report>)
    requires |reports| == |weeks|
    ensures KeysOf(KeyedReports(weeks, reports)) == set w | w in weeks :: WeekKey(w)
  {
    var entries := KeyedReports(weeks, reports);
    forall k | k in KeysOf(entries) ensures k in set w | w in weeks :: WeekKey(w) {
      var i :| 0 <= i < |entries| && entries[i].0 == k;
      assert weeks[i] in weeks;
    }
    forall w | w in weeks ensures WeekKey(w) in KeysOf(entries) {
      var i :| 0 <= i < |weeks| && weeks[i] == w;
      assert entries[i].0 == WeekKey(w);
    }
  }

  // ----- Claims -----

  /** JavaScript truthiness of the report's entry for `account`: present and not the empty string. */
  predicate HasEntry(report: Report, account: Address)
  {
    account in report && report[account] != ""
  }

  /** `Object.entries(reports)` for reports keyed by `weeks`, listed in week order. */
  function WeekEntries(reports: Reports, weeks: seq<nat>): (entries: seq<Entry<Report>>)
    requires forall w :: w in weeks ==> WeekKey(w) in reports
  {
    seq(|weeks|, i requires 0 <= i < |weeks| => (WeekKey(weeks[i]), reports[WeekKey(weeks[i])]))
  }

  /** For ascending weeks that are exactly the keys, `WeekEntries` is the order `Object.entries` lists. */
  lemma WeekEntriesAreObjectEntries(reports: Reports, weeks: seq<nat>)
    requires Ascending(weeks)
    requires reports.Keys == set w | w in weeks :: WeekKey(w)
    ensures IsEntriesOf(reports, WeekEntries(reports, weeks))
  {
    var entries := WeekEntries(reports, weeks);
    forall k | k in reports ensures IsCanonical(k) {
      var w :| w in weeks && k == WeekKey(w);
      WeekKeyValue(w);
    }
    forall k | k in reports ensures exists i :: 0 <= i < |entries| && entries[i].0 == k {
      var w :| w in weeks && k == WeekKey(w);
      var i :| 0 <= i < |weeks| && weeks[i] == w;
      assert entries[i].0 == k;
    }
    forall i, j | 0 <= i < j < |entries| ensures IndexValue(entries[i].0) < IndexValue(entries[j].0) {
      WeekKeyValue(weeks[i]);
      WeekKeyValue(weeks[j]);
    }
  }

  /** The entries whose report has a truthy amount for `account`, in their original order. */
  function KeepClaimable(entries: seq<Entry<Report>>, account: Address): (kept: seq<Entry<Report>>)
    ensures forall e :: e in kept <==> e in entries && HasEntry(e.1, account)
  {
    if entries == [] then []
    else
      var rest := KeepClaimable(entries[1..], account);
      if HasEntry(entries[0].1, account) then [entries[0]] + rest else rest
  }

  /** Filtering keeps the ascending order of the keys. */
  lemma {:induction false} KeepClaimableAscends(entries: seq<Entry<Report>>, account: Address)
    requires KeysAscending(entries)
    ensures KeysAscending(KeepClaimable(entries, account))
  {
    if entries != [] {
      var rest := KeepClaimable(entries[1..], account);
      KeepClaimableAscends(entries[1..], account);
      if HasEntry(entries[0].1, account) {
        forall j | 0 <= j < |rest| ensures IndexValue(entries[0].0) < IndexValue(rest[j].0) {
          assert rest[j] in entries[1..];
          var k :| 0 <= k < |entries[1..]| && entries[1..][k] == rest[j];
          assert entries[k + 1] == rest[j];
        }
        assert KeepClaimable(entries, account) == [entries[0]] + rest;
      }
    }
  }

  /** The claim a kept entry becomes: its key, the amount verbatim, and the amount scaled to 18 decimals. */
  function ClaimOf(entry: Entry<Report>, account: Address): (r: Result<Claim, AmountError>)
    requires account in entry.1
  {
    var amount := entry.1[account];
    match ParseUnits(amount, EtherDecimals)
    case Failure(e) => Failure(e)
    case Success(denorm) => Success(Claim(entry.0, amount, denorm))
  }

  /** Each kept entry converted to its claim, in order. */
  function ConvertAll(kept: seq<Entry<Report>>, account: Address): (rs: seq<Result<Claim, AmountError>>)
    requires forall i :: 0 <= i < |kept| ==> account in kept[i].1
    ensures |rs| == |kept| && forall i :: 0 <= i < |kept| ==> rs[i] == ClaimOf(kept[i], account)
  {
    seq(|kept|, i requires 0 <= i < |kept| => ClaimOf(kept[i], account))
  }

  /** The claims for `account` out of `reports`, whose keys are those of `weeks`. */
  function ClaimsFrom(reports: Reports, weeks: seq<nat>, account: Address): (r: Result<seq<Claim>, AmountError>)
    requires forall w :: w in weeks ==> WeekKey(w) in reports
  {
    Collect(ConvertAll(KeepClaimable(WeekEntries(reports, weeks), account), account))
  }

  /** `c` is the claim its week's report gives `account`: a truthy entry, copied verbatim and scaled to 18 decimals. */
  ghost predicate IsClaimFor(reports: Reports, account: Address, c: Claim)
  {
    && c.id in reports
    && HasEntry(reports[c.id], account)
    && c.amount == reports[c.id][account]
    && ParseUnits(c.amount, EtherDecimals) == Success(c.amountDenorm)
  }

  /** The ids of `claims` strictly ascend as week numbers. */
  ghost predicate IdsAscending(claims: seq<Claim>)
  {
    forall i, j :: 0 <= i < j < |claims| ==> IndexValue(claims[i].id) < IndexValue(claims[j].id)
  }

  /** Every claim comes from a truthy report entry of its week. */
  lemma ClaimsFromAreSound(reports: Reports, weeks: seq<nat>, account: Address)
    requires forall w :: w in weeks ==> WeekKey(w) in reports
    requires ClaimsFrom(reports, weeks, account).Success?
    ensures forall c :: c in ClaimsFrom(reports, weeks, account).value ==> IsClaimFor(reports, account, c)
  {
    var claims := ClaimsFrom(reports, weeks, account).value;
    forall c | c in claims ensures IsClaimFor(reports, account, c) {
      var i :| 0 <= i < |claims| && claims[i] == c;
      ClaimIsSound(reports, weeks, account, i);
    }
  }

  lemma ClaimIsSound(reports: Reports, weeks: seq<nat>, account: Address, i: nat)
    requires forall w :: w in weeks ==> WeekKey(w) in reports
    requires ClaimsFrom(reports, weeks, account).Success?
    requires i < |ClaimsFrom(reports, weeks, account).value|
    ensures IsClaimFor(reports, account, ClaimsFrom(reports, weeks, account).value[i])
  {
    var kept := KeepClaimable(WeekEntries(reports, weeks), account);
    var rs := ConvertAll(kept, account);
    var c := Collect(rs).value[i];
    assert c == rs[i].value;
    var k := KeptSource(reports, weeks, account, i);
    var key := WeekKey(weeks[k]);
    assert kept[i] == (key, reports[key]);
    assert ClaimOf(kept[i], account) == rs[i];
    var amount := reports[key][account];
    assert ParseUnits(amount, EtherDecimals).Success?;
    assert c == Claim(key, amount, ParseUnits(amount, EtherDecimals).value);
  }

  /** Every week whose report has a truthy entry for the account yields a claim. */
  lemma ClaimsFromAreComplete(reports: Reports, weeks: seq<nat>, account: Address)
    requires forall w :: w in weeks ==> WeekKey(w) in reports
    requires ClaimsFrom(reports, weeks, account).Success?
    ensures forall w :: w in weeks && HasEntry(reports[WeekKey(w)], account) ==>
              exists c :: c in ClaimsFrom(reports, weeks, account).value && c.id == WeekKey(w)
  {
    var claims := ClaimsFrom(reports, weeks, account).value;
    forall w | w in weeks && HasEntry(reports[WeekKey(w)], account)
      ensures exists c :: c in claims && c.id == WeekKey(w)
    {
      var k :| 0 <= k < |weeks| && weeks[k] == w;
      var m := KeptPosition(reports, weeks, account, k);
      var c := ClaimOf(KeepClaimable(WeekEntries(reports, weeks), account)[m], account).value;
      assert claims[m] == c;
    }
  }

  /**
   * For ascending weeks that are exactly the keys, the claims are the
   * filter-and-map chain applied to whatever list `Object.entries` gives.
   */
  lemma ClaimsFromObjectEntries(reports: Reports, weeks: seq<nat>, account: Address, entries: seq<Entry<Report>>)
    requires Ascending(weeks)
    requires reports.Keys == set w | w in weeks :: WeekKey(w)
    requires IsEntriesOf(reports, entries)
    ensures entries == WeekEntries(reports, weeks)
    ensures ClaimsFrom(reports, weeks, account) == Collect(ConvertAll(KeepClaimable(entries, account), account))
  {
    WeekEntriesAreObjectEntries(reports, weeks);
    EntriesOfIsUnique(reports, WeekEntries(reports, weeks), entries);
  }

  /** Truthiness is not a non-zero test: a zero amount such as "0" yields a claim of zero. */
  lemma ZeroAmountYieldsClaim(reports: Reports, weeks: seq<nat>, account: Address, w: nat)
    requires forall w :: w in weeks ==> WeekKey(w) in reports
    requires ClaimsFrom(reports, weeks, account).Success?
    requires w in weeks && account in reports[WeekKey(w)]
    requires var a := reports[WeekKey(w)][account]; a != [] && IsDigits(a) && DigitsValue(a) == 0
    ensures exists c :: c in ClaimsFrom(reports, weeks, account).value && c.id == WeekKey(w) && c.amountDenorm == 0
  {
    var a := reports[WeekKey(w)][account];
    var k :| 0 <= k < |weeks| && weeks[k] == w;
    var m := KeptPosition(reports, weeks, account, k);
    var kept := KeepClaimable(WeekEntries(reports, weeks), account);
    ParseUnitsOfDigits(a, EtherDecimals);
    ShiftIsScaling(0, EtherDecimals);
    var c := ClaimOf(kept[m], account).value;
    assert c == Claim(WeekKey(w), a, 0);
    assert ClaimsFrom(reports, weeks, account).value[m] == c;
  }

  /** Where the entry of the claimable week `weeks[k]` sits among the kept entries. */
  lemma KeptPosition(reports: Reports, weeks: seq<nat>, account: Address, k: nat) returns (m: nat)
    requires forall w :: w in weeks ==> WeekKey(w) in reports
    requires k < |weeks| && HasEntry(reports[WeekKey(weeks[k])], account)
    ensures m < |KeepClaimable(WeekEntries(reports, weeks), account)|
    ensures KeepClaimable(WeekEntries(reports, weeks), account)[m] == (WeekKey(weeks[k]), reports[WeekKey(weeks[k])])
  {
    var entries := WeekEntries(reports, weeks);
    var kept := KeepClaimable(entries, account);
    assert entries[k] in entries;
    m :| 0 <= m < |kept| && kept[m] == entries[k];
  }

  /** For ascending weeks that are the keys, the claims come out in ascending week order. */
  lemma ClaimsFromAscend(reports: Reports, weeks: seq<nat>, account: Address)
    requires Ascending(weeks)
    requires reports.Keys == set w | w in weeks :: WeekKey(w)
    requires ClaimsFrom(reports, weeks, account).Success?
    ensures IdsAscending(ClaimsFrom(reports, weeks, account).value)
  {
    WeekEntriesAreObjectEntries(reports, weeks);
    KeepClaimableAscends(WeekEntries(reports, weeks), account);
    var kept := KeepClaimable(WeekEntries(reports, weeks), account);
    ClaimIdsAreKeys(kept, account);
    IdsFollowKeys(kept, ClaimsFrom(reports, weeks, account).value);
  }

  /** Each claim's id is the key of the entry it was converted from. */
  lemma ClaimIdsAreKeys(kept: seq<Entry<Report>>, account: Address)
    requires forall i :: 0 <= i < |kept| ==> account in kept[i].1
    requires Collect(ConvertAll(kept, account)).Success?
    ensures var claims := Collect(ConvertAll(kept, account)).value;
      |claims| == |kept| && forall i :: 0 <= i < |kept| ==> claims[i].id == kept[i].0
  {
  }

  lemma IdsFollowKeys(kept: seq<Entry<Report>>, claims: seq<Claim>)
    requires KeysAscending(kept)
    requires |claims| == |kept| && forall i :: 0 <= i < |kept| ==> claims[i].id == kept[i].0
    ensures IdsAscending(claims)
  {
  }

  /** Converting the claims fails exactly when some claimable week's amount does not scale. */
  lemma ClaimsFromFailure(reports: Reports, weeks: seq<nat>, account: Address)
    requires forall w :: w in weeks ==> WeekKey(w) in reports
    ensures ClaimsFrom(reports, weeks, account).Failure? <==>
              exists w :: w in weeks && HasEntry(reports[WeekKey(w)], account)
                          && ParseUnits(reports[WeekKey(w)][account], EtherDecimals).Failure?
  {
    if ClaimsFrom(reports, weeks, account).Failure? {
      var k := FailureHasCause(reports, weeks, account);
      assert weeks[k] in weeks;
    }
    if w :| w in weeks && HasEntry(reports[WeekKey(w)], account)
            && ParseUnits(reports[WeekKey(w)][account], EtherDecimals).Failure? {
      var k :| 0 <= k < |weeks| && weeks[k] == w;
      BadAmountFails(reports, weeks, account, k);
    }
  }

  lemma FailureHasCause(reports: Reports, weeks: seq<nat>, account: Address) returns (k: nat)
    requires forall w :: w in weeks ==> WeekKey(w) in reports
    requires ClaimsFrom(reports, weeks, account).Failure?
    ensures k < |weeks| && HasEntry(reports[WeekKey(weeks[k])], account)
    ensures ParseUnits(reports[WeekKey(weeks[k])][account], EtherDecimals).Failure?
  {
    var kept := KeepClaimable(WeekEntries(reports, weeks), account);
    var rs := ConvertAll(kept, account);
    var i := FailingIndex(rs);
    k := KeptSource(reports, weeks, account, i);
    ClaimOfFails(kept[i], account);
  }

  lemma ClaimOfFails(entry: Entry<Report>, account: Address)
    requires account in entry.1 && ClaimOf(entry, account).Failure?
    ensures ParseUnits(entry.1[account], EtherDecimals).Failure?
  {
  }

  lemma BadAmountFails(reports: Reports, weeks: seq<nat>, account: Address, k: nat)
    requires forall w :: w in weeks ==> WeekKey(w) in reports
    requires k < |weeks| && HasEntry(reports[WeekKey(weeks[k])], account)
    requires ParseUnits(reports[WeekKey(weeks[k])][account], EtherDecimals).Failure?
    ensures ClaimsFrom(reports, weeks, account).Failure?
  {
    var kept := KeepClaimable(WeekEntries(reports, weeks), account);
    var m := KeptPosition(reports, weeks, account, k);
    assert ClaimOf(kept[m], account).Failure?;
  }

  /** Which week a kept entry comes from. */
  lemma KeptSource(reports: Reports, weeks: seq<nat>, account: Address, i: nat) returns (k: nat)
    requires forall w :: w in weeks ==> WeekKey(w) in reports
    requires i < |KeepClaimable(WeekEntries(reports, weeks), account)|
    ensures k < |weeks|
    ensures KeepClaimable(WeekEntries(reports, weeks), account)[i] == (WeekKey(weeks[k]), reports[WeekKey(weeks[k])])
    ensures HasEntry(reports[WeekKey(weeks[k])], account)
  {
    var entries := WeekEntries(reports, weeks);
    var kept := KeepClaimable(entries, account);
    assert kept[i] in kept;
    k :| 0 <= k < |entries| && entries[k] == kept[i];
  }

  /** The pending claims once the snapshot and the status list are known. */
  function Reconcile(account: Address, snapshot: Snapshot, status: seq<bool>, gateway: Gateway): (r: Result<PendingClaims, ClaimError>)
  {
    var weeks := PendingWeeks(status);
    var reports :- GetReports(snapshot, weeks, gateway);
    match ClaimsFrom(reports, weeks, account)
    case Failure(e) => Failure(BadAmount(e))
    case Success(claims) => Success(PendingClaims(claims, reports))
  }

  /**
   * The pending claims of `account` on `network`. The snapshot download,
   * the contract (`ledger`) and the IPFS gateway are inputs.
   */
  function GetPendingClaims(network: NetworkId, account: Address, snapshotResponse: Fetch<Option<Snapshot>>,
                            ledger: Ledger, gateway: Gateway): (r: Result<PendingClaims, ClaimError>)
    ensures network !in ConfiguredNetworks ==> r == Success(PendingClaims([], map[]))
    ensures network in ConfiguredNetworks && snapshotResponse.Rejected? ==> r == Failure(SnapshotUnavailable)
    ensures network in ConfiguredNetworks && snapshotResponse.Resolved?
            && ledger(ClaimStatusQuery(account, GetSnapshot(network, snapshotResponse).value)).Rejected?
            ==> r == Failure(ClaimStatusUnavailable)
  {
    if network !in ConfiguredNetworks then Success(PendingClaims([], map[]))
    else
      var snapshot :- GetSnapshot(network, snapshotResponse);
      match ledger(ClaimStatusQuery(account, snapshot))
      case Rejected => Failure(ClaimStatusUnavailable)
      case Resolved(status) => Reconcile(account, snapshot, status, gateway)
  }

  // ----- Claim tuples -----

  /** The report `reports[id]` the Merkle tree is loaded from; `None` stands for `undefined`. */
  function TreeSource(reports: Reports, id: string): Option<Report>
  {
    if id in reports then Some(reports[id]) else None
  }

  /**
   * The tuple `[week, amount in wei, proof]` for one claim. `leaf` is the
   * Solidity hash of (account, amount) and `hexProof` the proof the Merkle
   * tree of a report gives for a leaf.
   */
  function TupleOf(account: Address, c: Claim, reports: Reports,
                   leaf: (Address, int) -> string, hexProof: (Option<Report>, string) -> seq<string>)
    : (r: Result<ClaimTuple, AmountError>)
  {
    match ToWei(c.amount)
    case Failure(e) => Failure(e)
    case Success(wei) => Success(ClaimTuple(ParseInt(c.id), wei, hexProof(TreeSource(reports, c.id), leaf(account, wei))))
  }

  /** The tuples for `claims`, in claim order; the first amount `toWei` rejects fails them all. */
  function ClaimRewards(account: Address, claims: seq<Claim>, reports: Reports,
                        leaf: (Address, int) -> string, hexProof: (Option<Report>, string) -> seq<string>)
    : (r: Result<seq<ClaimTuple>, AmountError>)
    ensures r.Success? <==> forall i :: 0 <= i < |claims| ==> ToWei(claims[i].amount).Success?
    ensures r.Success? ==> |r.value| == |claims|
    ensures r.Success? ==> forall i :: 0 <= i < |claims| ==>
              var wei := ToWei(claims[i].amount).value;
              r.value[i] == ClaimTuple(ParseInt(claims[i].id), wei, hexProof(TreeSource(reports, claims[i].id), leaf(account, wei)))
  {
    var tuples := seq(|claims|, i requires 0 <= i < |claims| => TupleOf(account, claims[i], reports, leaf, hexProof));
    assert forall i :: 0 <= i < |claims| ==> tuples[i] == TupleOf(account, claims[i], reports, leaf, hexProof);
    Collect(tuples)
  }

  // ----- Properties of the whole pipeline -----

  /** The pending week numbers as object keys. */
  lemma PendingWeekKeys(status: seq<bool>)
    ensures (set w | w in PendingWeeks(status) :: WeekKey(w)) == set w | 1 <= w <= |status| :: WeekKey(w)
  {
    PendingWeeksAreOneToN(status);
  }

  /** A successful run is the reports of the pending weeks and the claims drawn from them. */
  lemma ReconcileParts(account: Address, snapshot: Snapshot, status: seq<bool>, gateway: Gateway) returns (reports: Reports)
    requires Reconcile(account, snapshot, status, gateway).Success?
    ensures GetReports(snapshot, PendingWeeks(status), gateway) == Success(reports)
    ensures ClaimsFrom(reports, PendingWeeks(status), account).Success?
    ensures Reconcile(account, snapshot, status, gateway).value
         == PendingClaims(ClaimsFrom(reports, PendingWeeks(status), account).value, reports)
  {
    reports := GetReports(snapshot, PendingWeeks(status), gateway).value;
  }

  /** The reports are keyed by exactly the pending weeks, each holding the report served for its snapshot hash. */
  lemma ReportsArePendingWeeks(account: Address, snapshot: Snapshot, status: seq<bool>, gateway: Gateway)
    requires Reconcile(account, snapshot, status, gateway).Success?
    ensures var reports := Reconcile(account, snapshot, status, gateway).value.reports;
      && reports.Keys == (set w | 1 <= w <= |status| :: WeekKey(w))
      && forall w :: 1 <= w <= |status| ==> reports[WeekKey(w)] == gateway[ReportHash(snapshot, w)]
  {
    var weeks := PendingWeeks(status);
    var reports := ReconcileParts(account, snapshot, status, gateway);
    assert reports.Keys == set w | w in weeks :: WeekKey(w);
    PendingWeekKeys(status);
    PendingWeeksAreOneToN(status);
    forall w | 1 <= w <= |status| ensures reports[WeekKey(w)] == gateway[ReportHash(snapshot, w)] {
      assert w in weeks;
    }
  }

  /**
   * The claims are exactly the weeks with a truthy entry for the account:
   * each claim comes from its week's report, every such week has a claim,
   * and the claims are in week order.
   */
  lemma ClaimsArePendingClaims(account: Address, snapshot: Snapshot, status: seq<bool>, gateway: Gateway)
    requires Reconcile(account, snapshot, status, gateway).Success?
    ensures var p := Reconcile(account, snapshot, status, gateway).value;
      && (forall c :: c in p.claims ==> IsClaimFor(p.reports, account, c))
      && (forall k :: k in p.reports && HasEntry(p.reports[k], account) ==> exists c :: c in p.claims && c.id == k)
      && IdsAscending(p.claims)
  {
    var weeks := PendingWeeks(status);
    var reports := ReconcileParts(account, snapshot, status, gateway);
    PendingWeeksAreOneToN(status);
    PendingWeekKeys(status);
    ClaimsFromAreSound(reports, weeks, account);
    ClaimsFromAreComplete(reports, weeks, account);
    ClaimsFromAscend(reports, weeks, account);
  }

  /**
   * The pipeline fails on a missing report exactly when some pending week's
   * hash is not served; with every report served, it fails exactly when some
   * week's truthy amount does not scale to 18 decimals.
   */
  lemma ReconcileFailure(account: Address, snapshot: Snapshot, status: seq<bool>, gateway: Gateway)
    ensures (Reconcile(account, snapshot, status, gateway) == Failure(ReportUnavailable))
         <==> (exists w :: 1 <= w <= |status| && ReportHash(snapshot, w) !in gateway)
    ensures (forall w :: 1 <= w <= |status| ==> ReportHash(snapshot, w) in gateway) ==>
              ((Reconcile(account, snapshot, status, gateway).Failure?)
               <==> (exists w :: 1 <= w <= |status| && HasEntry(gateway[ReportHash(snapshot, w)], account)
                                 && ParseUnits(gateway[ReportHash(snapshot, w)][account], EtherDecimals).Failure?))
  {
    var weeks := PendingWeeks(status);
    PendingWeeksAreOneToN(status);
    var r := GetReports(snapshot, weeks, gateway);
    if r.Success? {
      ClaimsFromFailure(r.value, weeks, account);
    }
  }

  /** As written, the status list matters only through its length. */
  lemma ReconcileIgnoresStatus(account: Address, snapshot: Snapshot, status: seq<bool>, other: seq<bool>, gateway: Gateway)
    requires |status| == |other|
    ensures Reconcile(account, snapshot, status, gateway) == Reconcile(account, snapshot, other, gateway)
  {
    assert PendingWeeks(status) == PendingWeeks(other);
  }

  /** Once snapshot and status are in hand, the pending claims are those of `Reconcile`. */
  lemma GetPendingClaimsReconciles(network: NetworkId, account: Address, snapshotResponse: Fetch<Option<Snapshot>>,
                                   ledger: Ledger, gateway: Gateway)
    requires network in ConfiguredNetworks && GetSnapshot(network, snapshotResponse).Success?
    requires ledger(ClaimStatusQuery(account, GetSnapshot(network, snapshotResponse).value)).Resolved?
    ensures var snapshot := GetSnapshot(network, snapshotResponse).value;
      var status := ledger(StatusQuery(account, 1, |snapshot|)).value;
      GetPendingClaims(network, account, snapshotResponse, ledger, gateway) == Reconcile(account, snapshot, status, gateway)
  {
  }

  /**
   * The contract is asked about periods 1 to the number of snapshot keys and
   * nothing else: ledgers that agree on that one query give the same result.
   */
  lemma StatusQueryCountsSnapshotKeys(network: NetworkId, account: Address, snapshotResponse: Fetch<Option<Snapshot>>,
                                      ledger: Ledger, other: Ledger, gateway: Gateway)
    requires GetSnapshot(network, snapshotResponse).Success?
    requires var n := |GetSnapshot(network, snapshotResponse).value|;
      ledger(StatusQuery(account, 1, n)) == other(StatusQuery(account, 1, n))
    ensures GetPendingClaims(network, account, snapshotResponse, ledger, gateway)
         == GetPendingClaims(network, account, snapshotResponse, other, gateway)
  {
  }

  /** Amounts already claimed or not, the pending claims are the same: only the number of statuses counts. */
  lemma GetPendingClaimsIgnoresStatus(network: NetworkId, account: Address, snapshotResponse: Fetch<Option<Snapshot>>,
                                      ledger: Ledger, other: Ledger, gateway: Gateway)
    requires GetSnapshot(network, snapshotResponse).Success?
    requires var q := ClaimStatusQuery(account, GetSnapshot(network, snapshotResponse).value);
      ledger(q).Resolved? && other(q).Resolved? && |ledger(q).value| == |other(q).value|
    ensures GetPendingClaims(network, account, snapshotResponse, ledger, gateway)
         == GetPendingClaims(network, account, snapshotResponse, other, gateway)
  {
    if network in ConfiguredNetworks {
      var snapshot := GetSnapshot(network, snapshotResponse).value;
      var q := ClaimStatusQuery(account, snapshot);
      ReconcileIgnoresStatus(account, snapshot, ledger(q).value, other(q).value, gateway);
    }
  }

  /** A claim's `amountDenorm` is its decimal amount times 10^18, exactly. */
  lemma ClaimAmountIsExact(reports: Reports, account: Address, c: Claim)
    requires IsClaimFor(reports, account, c)
    ensures IsDecimal(c.amount) && |SignificantFraction(c.amount)| <= EtherDecimals
    ensures IsDigits(WholePart(c.amount) + SignificantFraction(c.amount))
    ensures c.amountDenorm
         == SignedBy(IsNegative(c.amount), Shift(DigitsValue(WholePart(c.amount) + SignificantFraction(c.amount)),
                                                 EtherDecimals - |SignificantFraction(c.amount)|))
  {
    ParseUnitsIsExact(c.amount, EtherDecimals);
  }

  /** Claims whose amounts convert and whose ids are week numbers give tuples carrying exactly those. */
  lemma ClaimRewardsOfWeekClaims(account: Address, claims: seq<Claim>, reports: Reports,
                                 leaf: (Address, int) -> string, hexProof: (Option<Report>, string) -> seq<string>)
    requires forall i :: 0 <= i < |claims| ==> ToWei(claims[i].amount) == Success(claims[i].amountDenorm)
    requires forall i :: 0 <= i < |claims| ==> claims[i].id in reports && ParseInt(claims[i].id) == Some(IndexValue(claims[i].id))
    ensures var r := ClaimRewards(account, claims, reports, leaf, hexProof);
      && r.Success?
      && |r.value| == |claims|
      && forall i :: 0 <= i < |claims| ==>
           r.value[i] == ClaimTuple(Some(IndexValue(claims[i].id)), claims[i].amountDenorm,
                                    hexProof(Some(reports[claims[i].id]), leaf(account, claims[i].amountDenorm)))
  {
  }

  /**
   * `toWei` takes a claim's amount to its `amountDenorm` unless the amount
   * has more than 18 fractional digits (trailing zeros included), where
   * `toWei` fails although `parseUnits` accepted it.
   */
  lemma ClaimConverts(reports: Reports, account: Address, c: Claim)
    requires IsClaimFor(reports, account, c)
    ensures ToWei(c.amount).Success? <==> |FractionPart(c.amount)| <= EtherDecimals
    ensures ToWei(c.amount).Success? ==> ToWei(c.amount) == Success(c.amountDenorm)
  {
    ParseUnitsIsExact(c.amount, EtherDecimals);
    ToWeiAgreesWithParseUnits(c.amount);
  }

  /**
   * One claim's tuple: the week number, `amountDenorm` again, and the proof
   * from the tree of the week's report; it fails only on a raw fraction
   * longer than 18 digits.
   */
  lemma TupleOfClaim(account: Address, c: Claim, reports: Reports, w: nat,
                     leaf: (Address, int) -> string, hexProof: (Option<Report>, string) -> seq<string>)
    requires IsClaimFor(reports, account, c) && c.id == WeekKey(w)
    ensures TupleOf(account, c, reports, leaf, hexProof).Success? <==> |FractionPart(c.amount)| <= EtherDecimals
    ensures TupleOf(account, c, reports, leaf, hexProof).Success? ==>
              TupleOf(account, c, reports, leaf, hexProof).value
              == ClaimTuple(Some(w), c.amountDenorm, hexProof(Some(reports[c.id]), leaf(account, c.amountDenorm)))
  {
    ClaimConverts(reports, account, c);
    ParseIntDecimalString(w);
  }

  /** Claims drawn from reports keyed by weeks 1 to `n` turn into tuples of week, `amountDenorm` and proof. */
  lemma ClaimRewardsOfClaims(account: Address, claims: seq<Claim>, reports: Reports, n: nat,
                             leaf: (Address, int) -> string, hexProof: (Option<Report>, string) -> seq<string>)
    requires forall c :: c in claims ==> IsClaimFor(reports, account, c)
    requires reports.Keys == set w | 1 <= w <= n :: WeekKey(w)
    ensures var r := ClaimRewards(account, claims, reports, leaf, hexProof);
      && (r.Success? <==> forall i :: 0 <= i < |claims| ==> |FractionPart(claims[i].amount)| <= EtherDecimals)
      && (r.Success? ==> |r.value| == |claims|)
      && forall i :: 0 <= i < |claims| ==>
           && 1 <= IndexValue(claims[i].id) <= n
           && claims[i].id in reports
           && (r.Success? ==> r.value[i] == ClaimTuple(Some(IndexValue(claims[i].id)), claims[i].amountDenorm,
                                                       hexProof(Some(reports[claims[i].id]), leaf(account, claims[i].amountDenorm))))
  {
    forall i | 0 <= i < |claims|
      ensures ToWei(claims[i].amount).Success? <==> |FractionPart(claims[i].amount)| <= EtherDecimals
      ensures ToWei(claims[i].amount).Success? ==> ToWei(claims[i].amount) == Success(claims[i].amountDenorm)
      ensures 1 <= IndexValue(claims[i].id) <= n
      ensures claims[i].id in reports && ParseInt(claims[i].id) == Some(IndexValue(claims[i].id))
    {
      assert claims[i] in claims;
      ClaimConverts(reports, account, claims[i]);
      var w :| 1 <= w <= n && claims[i].id == WeekKey(w);
      WeekKeyValue(w);
      ParseIntDecimalString(w);
    }
    if forall i :: 0 <= i < |claims| ==> |FractionPart(claims[i].amount)| <= EtherDecimals {
      ClaimRewardsOfWeekClaims(account, claims, reports, leaf, hexProof);
    }
  }

  /**
   * Feeding the pending claims to `ClaimRewards` gives one tuple per claim,
   * in order: the week number, `amountDenorm` again (as `toWei`), and the
   * proof from the tree of that week's report. It fails only on an amount
   * with more than 18 fractional digits.
   */
  lemma ClaimRewardsOfPendingClaims(account: Address, snapshot: Snapshot, status: seq<bool>, gateway: Gateway,
                                    leaf: (Address, int) -> string, hexProof: (Option<Report>, string) -> seq<string>)
    requires Reconcile(account, snapshot, status, gateway).Success?
    ensures var p := Reconcile(account, snapshot, status, gateway).value;
      var r := ClaimRewards(account, p.claims, p.reports, leaf, hexProof);
      && (r.Success? <==> forall i :: 0 <= i < |p.claims| ==> |FractionPart(p.claims[i].amount)| <= EtherDecimals)
      && (r.Success? ==> |r.value| == |p.claims|)
      && forall i :: 0 <= i < |p.claims| ==>
           && 1 <= IndexValue(p.claims[i].id) <= |status|
           && p.claims[i].id in p.reports
           && (r.Success? ==> r.value[i] == ClaimTuple(Some(IndexValue(p.claims[i].id)), p.claims[i].amountDenorm,
                                                       hexProof(Some(p.reports[p.claims[i].id]), leaf(account, p.claims[i].amountDenorm))))
  {
    var p := Reconcile(account, snapshot, status, gateway).value;
    ClaimsArePendingClaims(account, snapshot, status, gateway);
    ReportsArePendingWeeks(account, snapshot, status, gateway);
    PendingTuples(account, p, |status|, leaf, hexProof);
  }

  lemma PendingTuples(account: Address, p: PendingClaims, n: nat,
                      leaf: (Address, int) -> string, hexProof: (Option<Report>, string) -> seq<string>)
    requires forall c :: c in p.claims ==> IsClaimFor(p.reports, account, c)
    requires p.reports.Keys == set w | 1 <= w <= n :: WeekKey(w)
    ensures var r := ClaimRewards(account, p.claims, p.reports, leaf, hexProof);
      && (r.Success? <==> forall i :: 0 <= i < |p.claims| ==> |FractionPart(p.claims[i].amount)| <= EtherDecimals)
      && (r.Success? ==> |r.value| == |p.claims|)
      && forall i :: 0 <= i < |p.claims| ==>
           && 1 <= IndexValue(p.claims[i].id) <= n
           && p.claims[i].id in p.reports
           && (r.Success? ==> r.value[i] == ClaimTuple(Some(IndexValue(p.claims[i].id)), p.claims[i].amountDenorm,
                                                       hexProof(Some(p.reports[p.claims[i].id]), leaf(account, p.claims[i].amountDenorm))))
  {
    ClaimRewardsOfClaims(account, p.claims, p.reports, n, leaf, hexProof);
  }
}
