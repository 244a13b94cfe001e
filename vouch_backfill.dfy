/**
 * Data migration 0038 of the users app: give every profile that owns an identity-provider
 * email at an allow-listed domain one automatic "system" vouch, then recompute the profile's
 * derived `is_vouched` / `can_vouch` flags from its vouch count.
 *
 * The three relations are plain data: the profile table is an array of rows (updated in place
 * by the migration's loop), the IdP table a sequence of (profile, email) rows, and the vouches a
 * profile has received are held in its row. The Django settings and the value of `now()` are
 * parameters.
 */
module VouchBackfill {
  import opened Wrappers
  import opened PyText

  /** `AUTO_VOUCH_DOMAINS`, `AUTO_VOUCH_REASON` and `CAN_VOUCH_THRESHOLD`. */
  datatype Settings = Settings(autoVouchDomains: set<string>, autoVouchReason: string, canVouchThreshold: int)

  /** The value returned by `now()`; never inspected. */
  type Timestamp = int

  /** A row of the vouch table, seen from the vouchee; `voucher == None` is a system vouch. */
  datatype Vouch = Vouch(voucher: Option<nat>, date: Timestamp, description: string, autovouch: bool)

  /** A row of `UserProfile` together with its `vouches_received`. */
  datatype Profile = Profile(pk: nat, isVouched: bool, canVouch: bool, vouchesReceived: seq<Vouch>)

  /** A row of `IdpProfile`: an identity email and the profile it belongs to. */
  datatype IdpProfile = IdpProfile(profile: nat, email: string)

  /** How a run ends: normally, or with Python's IndexError raised while handling row `at`. */
  datatype Outcome = Completed | IndexError(at: nat)

  /** `email.split('@')[1]`; `None` where Python raises IndexError. */
  function EmailDomain(email: string): (d: Option<string>)
    ensures d.Some? <==> '@' in email
    ensures d.Some? ==> '@' !in d.value
  {
    var parts := Split(email, '@');
    SplitAtFirst(email, '@');
    if |parts| < 2 then None else Some(parts[1])
  }

  /** The domain is the text between the first `@` and the next one (or the end of the address). */
  lemma DomainIsSecondSegment(email: string)
    requires '@' in email
    ensures var i := Find(email, '@');
            var rest := email[i + 1..];
            EmailDomain(email) == Some(rest[..Find(rest, '@')])
  {
    var i := Find(email, '@');
    SplitAtFirst(email, '@');
    SplitAtFirst(email[i + 1..], '@');
  }

  /** `[idp.email for idp in IdpProfile.objects.filter(profile=profile)]`, in table order. */
  function EmailsOf(pk: nat, idps: seq<IdpProfile>): (emails: seq<string>)
    ensures |emails| <= |idps|
    ensures forall e :: e in emails <==> exists k :: 0 <= k < |idps| && idps[k].profile == pk && idps[k].email == e
    decreases |idps|
  {
    if idps == [] then []
    else
      var rest := EmailsOf(pk, idps[1..]);
      assert forall k :: 1 <= k < |idps| ==> idps[k] == idps[1..][k - 1];
      if idps[0].profile == pk then [idps[0].email] + rest else rest
  }

  /** Some email has no `@`: evaluating the domain list raises IndexError. */
  function Malformed(emails: seq<string>): (b: bool)
    ensures b <==> exists k :: 0 <= k < |emails| && EmailDomain(emails[k]).None?
  {
    exists e :: e in emails && '@' !in e
  }

  /** The `email_exists` condition: some email's domain is allow-listed. */
  function EmailExists(emails: seq<string>, domains: set<string>): (b: bool)
    ensures b ==> emails != [] && domains != {}
  {
    exists k :: 0 <= k < |emails| && EmailDomain(emails[k]).Some? && EmailDomain(emails[k]).value in domains
  }

  /** `email_exists` in terms of positions: some email has an `@`, and the text between its first
      `@` and the next one (or the end) is an allow-listed domain. */
  lemma EmailExistsMeaning(emails: seq<string>, domains: set<string>)
    ensures EmailExists(emails, domains) <==>
              exists k :: 0 <= k < |emails| && '@' in emails[k] &&
                (var i := Find(emails[k], '@'); var rest := emails[k][i + 1..]; rest[..Find(rest, '@')] in domains)
  {
    forall k | 0 <= k < |emails| && '@' in emails[k] {
      DomainIsSecondSegment(emails[k]);
    }
  }

  /** `vouches_received.filter(description=reason, autovouch=True).exists()` */
  function HasAutoVouch(vouches: seq<Vouch>, reason: string): (b: bool)
    ensures b <==> exists k :: 0 <= k < |vouches| && vouches[k].description == reason && vouches[k].autovouch
    ensures b ==> vouches != []
  {
    exists v :: v in vouches && v.description == reason && v.autovouch
  }

  /** The vouch the migration creates. */
  function SystemVouch(s: Settings, now: Timestamp): (v: Vouch)
    ensures v.voucher == None && v.autovouch && v.description == s.autoVouchReason && v.date == now
  {
    Vouch(None, now, s.autoVouchReason, true)
  }

  /** The derived flags agree with the vouch count; then a profile able to vouch has been vouched
      for whenever the threshold is positive, and every profile can vouch when it is not. */
  function FlagsConsistent(p: Profile, threshold: int): (b: bool)
    ensures b ==> (p.isVouched <==> p.vouchesReceived != [])
    ensures b && threshold >= 1 && p.canVouch ==> p.isVouched
    ensures b && threshold <= 0 ==> p.canVouch
  {
    p.isVouched == (|p.vouchesReceived| > 0) && p.canVouch == (|p.vouchesReceived| >= threshold)
  }

  /** One iteration of the migration's loop, on one profile and its IdP emails; `None` is IndexError. */
  function BackfillProfile(p: Profile, emails: seq<string>, s: Settings, now: Timestamp): (r: Option<Profile>)
    ensures r.None? <==> Malformed(emails)
    ensures r.Some? ==> r.value.pk == p.pk
    // existing vouches are kept as they were, and at most one is appended
    ensures r.Some? ==> p.vouchesReceived <= r.value.vouchesReceived
    ensures r.Some? ==> |r.value.vouchesReceived| <= |p.vouchesReceived| + 1
    // a vouch is added exactly when an allow-listed email exists and no autovouch does
    ensures r.Some? ==> (|r.value.vouchesReceived| == |p.vouchesReceived| + 1
                         <==> EmailExists(emails, s.autoVouchDomains) && !HasAutoVouch(p.vouchesReceived, s.autoVouchReason))
    ensures r.Some? && r.value.vouchesReceived != p.vouchesReceived ==>
              && r.value.vouchesReceived == p.vouchesReceived + [SystemVouch(s, now)]
              && r.value.isVouched
              && FlagsConsistent(r.value, s.canVouchThreshold)
    ensures r.Some? && r.value.vouchesReceived == p.vouchesReceived ==> r.value == p
    // afterwards, an allow-listed profile holds the automatic vouch
    ensures r.Some? && EmailExists(emails, s.autoVouchDomains) ==> HasAutoVouch(r.value.vouchesReceived, s.autoVouchReason)
  {
    if Malformed(emails) then None
    else if EmailExists(emails, s.autoVouchDomains) && !HasAutoVouch(p.vouchesReceived, s.autoVouchReason) then
      var vouches := p.vouchesReceived + [SystemVouch(s, now)];
      assert SystemVouch(s, now) in vouches;
      Some(p.(vouchesReceived := vouches,
              isVouched := |vouches| > 0,
              canVouch := |vouches| >= s.canVouchThreshold))
    else Some(p)
  }

  /** A second pass over a profile changes nothing, whatever the clock says. */
  lemma BackfillProfileIdempotent(p: Profile, emails: seq<string>, s: Settings, now: Timestamp, later: Timestamp)
    requires BackfillProfile(p, emails, s, now).Some?
    ensures BackfillProfile(BackfillProfile(p, emails, s, now).value, emails, s, later)
            == BackfillProfile(p, emails, s, now)
  {
  }

  /** Position of the first profile whose IdP emails raise IndexError, or the table's length. */
  function FirstMalformed(ps: seq<Profile>, idps: seq<IdpProfile>): (i: nat)
    ensures i <= |ps|
    ensures forall k :: 0 <= k < i ==> !Malformed(EmailsOf(ps[k].pk, idps))
    ensures i < |ps| ==> Malformed(EmailsOf(ps[i].pk, idps))
    decreases |ps|
  {
    if ps == [] then 0
    else if Malformed(EmailsOf(ps[0].pk, idps)) then 0
    else
      var j := FirstMalformed(ps[1..], idps);
      assert forall k :: 1 <= k < |ps| ==> ps[k] == ps[1..][k - 1];
      1 + j
  }

  /** Where the run stops depends on the profiles' keys alone. */
  lemma {:induction false} FirstMalformedByKeys(ps: seq<Profile>, qs: seq<Profile>, idps: seq<IdpProfile>)
    requires |ps| == |qs|
    requires forall k :: 0 <= k < |ps| ==> ps[k].pk == qs[k].pk
    ensures FirstMalformed(ps, idps) == FirstMalformed(qs, idps)
    decreases |ps|
  {
    if ps != [] {
      FirstMalformedByKeys(ps[1..], qs[1..], idps);
    }
  }

  /** The outcome of `add_missing_employee_vouches` on a table. */
  function RunOutcome(ps: seq<Profile>, idps: seq<IdpProfile>): (o: Outcome)
    ensures o.IndexError? ==> o.at < |ps| && Malformed(EmailsOf(ps[o.at].pk, idps))
    ensures o.IndexError? ==> forall k :: 0 <= k < o.at ==> !Malformed(EmailsOf(ps[k].pk, idps))
    ensures o == Completed <==> forall k :: 0 <= k < |ps| ==> !Malformed(EmailsOf(ps[k].pk, idps))
  {
    var i := FirstMalformed(ps, idps);
    if i < |ps| then IndexError(i) else Completed
  }

  /** The profile table after `add_missing_employee_vouches`: rows before the failing one (all of
      them on a completed run) are backfilled, the rest are as they were. */
  function Backfill(ps: seq<Profile>, idps: seq<IdpProfile>, s: Settings, now: Timestamp): (r: seq<Profile>)
    ensures |r| == |ps|
    ensures forall k :: 0 <= k < |ps| ==> r[k].pk == ps[k].pk
  {
    var stop := FirstMalformed(ps, idps);
    seq(|ps|, k requires 0 <= k < |ps| =>
      if k < stop then BackfillProfile(ps[k], EmailsOf(ps[k].pk, idps), s, now).value else ps[k])
  }

  /** One iteration of the loop on row `i`, whose emails are well formed: the run goes past row `i`,
      and row `i` comes out with the system vouch and recomputed flags exactly when it is eligible. */
  lemma BackfillStep(ps: seq<Profile>, idps: seq<IdpProfile>, s: Settings, now: Timestamp, i: nat,
                     emails: seq<string>, eligible: bool)
    requires i <= FirstMalformed(ps, idps) && i < |ps|
    requires emails == EmailsOf(ps[i].pk, idps) && !Malformed(emails)
    requires eligible == (EmailExists(emails, s.autoVouchDomains) && !HasAutoVouch(ps[i].vouchesReceived, s.autoVouchReason))
    ensures i < FirstMalformed(ps, idps)
    ensures Backfill(ps, idps, s, now)[i] ==
              if eligible
              then ps[i].(vouchesReceived := ps[i].vouchesReceived + [SystemVouch(s, now)],
                          isVouched := |ps[i].vouchesReceived| + 1 > 0,
                          canVouch := |ps[i].vouchesReceived| + 1 >= s.canVouchThreshold)
              else ps[i]
  {
    var r := BackfillProfile(ps[i], emails, s, now);
    assert Backfill(ps, idps, s, now)[i] == r.value;
    if eligible {
      assert r == Some(ps[i].(vouchesReceived := ps[i].vouchesReceived + [SystemVouch(s, now)],
                              isVouched := |ps[i].vouchesReceived| + 1 > 0,
                              canVouch := |ps[i].vouchesReceived| + 1 >= s.canVouchThreshold));
    } else {
      assert r == Some(ps[i]);
    }
  }

  /** Rows from the stopping point onward are left as they were. */
  lemma BackfillTail(ps: seq<Profile>, idps: seq<IdpProfile>, s: Settings, now: Timestamp)
    ensures var stop := FirstMalformed(ps, idps);
            Backfill(ps, idps, s, now)[..stop] + ps[stop..] == Backfill(ps, idps, s, now)
  {
  }

  /** Taking row `i` of `a` in place of row `i` of `b` moves the boundary of a splice one row on. */
  lemma SpliceStep<T>(a: seq<T>, b: seq<T>, i: nat)
    requires i < |a| == |b|
    ensures (a[..i] + b[i..])[i := a[i]] == a[..i + 1] + b[i + 1..]
  {
  }

  /** After a completed run every profile with an allow-listed IdP email has the automatic vouch. */
  lemma CompletedRunCoversAllowListed(ps: seq<Profile>, idps: seq<IdpProfile>, s: Settings, now: Timestamp)
    requires RunOutcome(ps, idps) == Completed
    ensures forall k :: 0 <= k < |ps| && EmailExists(EmailsOf(ps[k].pk, idps), s.autoVouchDomains) ==>
              HasAutoVouch(Backfill(ps, idps, s, now)[k].vouchesReceived, s.autoVouchReason)
  {
    var r := Backfill(ps, idps, s, now);
    forall k | 0 <= k < |ps| && EmailExists(EmailsOf(ps[k].pk, idps), s.autoVouchDomains)
      ensures HasAutoVouch(r[k].vouchesReceived, s.autoVouchReason)
    {
      assert r[k] == BackfillProfile(ps[k], EmailsOf(ps[k].pk, idps), s, now).value;
    }
  }

  /** Every row keeps its vouches, gains at most one — the system vouch, and only if it had no
      autovouch and owns an allow-listed email — and a row that gains it gets consistent flags. */
  lemma BackfillRowChanges(ps: seq<Profile>, idps: seq<IdpProfile>, s: Settings, now: Timestamp, k: nat)
    requires k < |ps|
    ensures var before, after := ps[k], Backfill(ps, idps, s, now)[k];
            || after == before
            || (&& after.vouchesReceived == before.vouchesReceived + [SystemVouch(s, now)]
                && EmailExists(EmailsOf(before.pk, idps), s.autoVouchDomains)
                && !HasAutoVouch(before.vouchesReceived, s.autoVouchReason)
                && after.isVouched
                && FlagsConsistent(after, s.canVouchThreshold)
                && after.pk == before.pk)
  {
    var r := Backfill(ps, idps, s, now);
    if k < FirstMalformed(ps, idps) {
      assert r[k] == BackfillProfile(ps[k], EmailsOf(ps[k].pk, idps), s, now).value;
    }
  }

  /** Profiles without an allow-listed IdP email, and profiles that already hold the automatic
      vouch, come out exactly as they went in — flags included, consistent or not. */
  lemma BackfillLeavesOthersAlone(ps: seq<Profile>, idps: seq<IdpProfile>, s: Settings, now: Timestamp, k: nat)
    requires k < |ps|
    requires !EmailExists(EmailsOf(ps[k].pk, idps), s.autoVouchDomains)
             || HasAutoVouch(ps[k].vouchesReceived, s.autoVouchReason)
    ensures Backfill(ps, idps, s, now)[k] == ps[k]
  {
    var r := Backfill(ps, idps, s, now);
    if k < FirstMalformed(ps, idps) {
      assert r[k] == BackfillProfile(ps[k], EmailsOf(ps[k].pk, idps), s, now).value;
    }
  }

  /** Running the migration again changes nothing, whether the first run completed or stopped on
      IndexError: the second run stops at the same row, and the rows before it are already done. */
  lemma BackfillIdempotent(ps: seq<Profile>, idps: seq<IdpProfile>, s: Settings, now: Timestamp, later: Timestamp)
    ensures RunOutcome(Backfill(ps, idps, s, now), idps) == RunOutcome(ps, idps)
    ensures Backfill(Backfill(ps, idps, s, now), idps, s, later) == Backfill(ps, idps, s, now)
  {
    var once := Backfill(ps, idps, s, now);
    FirstMalformedByKeys(ps, once, idps);
    var twice := Backfill(once, idps, s, later);
    forall k | 0 <= k < |ps| ensures twice[k] == once[k] {
      if k < FirstMalformed(ps, idps) {
        var emails := EmailsOf(ps[k].pk, idps);
        assert once[k] == BackfillProfile(ps[k], emails, s, now).value;
        assert twice[k] == BackfillProfile(once[k], emails, s, later).value;
        BackfillProfileIdempotent(ps[k], emails, s, now, later);
      }
    }
  }

  /** A table whose flags all agree with the vouch counts still has that property afterwards. */
  lemma BackfillKeepsFlagsConsistent(ps: seq<Profile>, idps: seq<IdpProfile>, s: Settings, now: Timestamp)
    requires forall k :: 0 <= k < |ps| ==> FlagsConsistent(ps[k], s.canVouchThreshold)
    ensures forall k :: 0 <= k < |ps| ==> FlagsConsistent(Backfill(ps, idps, s, now)[k], s.canVouchThreshold)
  {
    forall k | 0 <= k < |ps| ensures FlagsConsistent(Backfill(ps, idps, s, now)[k], s.canVouchThreshold) {
      BackfillRowChanges(ps, idps, s, now, k);
    }
  }

  /** One iteration of the migration's loop, on row `i`: read the profile's IdP emails; raise
      IndexError if one has no `@`; otherwise, if an allow-listed email exists and no autovouch does,
      create the system vouch and store the flags recomputed from the new vouch count. The rows
      before `i` are already backfilled, and afterwards row `i` is too. */
  method BackfillOne(profiles: array<Profile>, i: nat, idps: seq<IdpProfile>, s: Settings, now: Timestamp,
                     ghost before: seq<Profile>)
    returns (raised: bool)
    requires i < profiles.Length == |before| && i <= FirstMalformed(before, idps)
    requires profiles[..] == Backfill(before, idps, s, now)[..i] + before[i..]
    modifies profiles
    ensures raised <==> i == FirstMalformed(before, idps)
    ensures raised ==> profiles[..] == old(profiles[..])
    ensures !raised ==> profiles[..] == Backfill(before, idps, s, now)[..i + 1] + before[i + 1..]
  {
    ghost var after := Backfill(before, idps, s, now);
    var profile := profiles[i];
    assert profile == before[i];
    var emails := EmailsOf(profile.pk, idps);
    if Malformed(emails) {
      return true;
    }
    var eligible := EmailExists(emails, s.autoVouchDomains) && !HasAutoVouch(profile.vouchesReceived, s.autoVouchReason);
    BackfillStep(before, idps, s, now, i, emails, eligible);
    ghost var current := profiles[..];
    if eligible {
      var vouches := profile.vouchesReceived + [SystemVouch(s, now)];
      var count := |vouches|;
      profiles[i] := profile.(vouchesReceived := vouches,
                              isVouched := count > 0,
                              canVouch := count >= s.canVouchThreshold);
    }
    assert profiles[..] == current[i := after[i]];
    SpliceStep(after, before, i);
    return false;
  }

  /** `add_missing_employee_vouches`: one pass over the profile table, in table order. */
  method AddMissingEmployeeVouches(profiles: array<Profile>, idps: seq<IdpProfile>, s: Settings, now: Timestamp)
    returns (outcome: Outcome)
    modifies profiles
    ensures outcome == RunOutcome(old(profiles[..]), idps)
    ensures profiles[..] == Backfill(old(profiles[..]), idps, s, now)
  {
    ghost var before := profiles[..];
    var i := 0;
    while i < profiles.Length
      invariant 0 <= i <= FirstMalformed(before, idps)
      invariant profiles[..] == Backfill(before, idps, s, now)[..i] + before[i..]
    {
      var raised := BackfillOne(profiles, i, idps, s, now, before);
      if raised {
        BackfillTail(before, idps, s, now);
        return IndexError(i);
      }
      i := i + 1;
    }
    BackfillTail(before, idps, s, now);
    return Completed;
  }

  /** `backwards`: the reverse migration does nothing. */
  method Backwards(profiles: array<Profile>)
    ensures profiles[..] == old(profiles[..])
  {
  }
}
