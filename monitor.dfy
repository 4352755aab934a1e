/**
 * The decision `lambda_handler` makes on each run: read the settings, work out
 * the cutoff, pick the latest backup under the prefix and decide whether an
 * alert goes to the chat channel.
 */
module Monitor {
  import opened Strings
  import opened Listing

  /** What the run reads from its environment, by variable name. */
  type Env = map<string, string>

  const BucketVar: string := "bucket_name"
  const PathVar: string := "path_int_tab"
  const ThresholdVar: string := "threshold_min"
  /** The value used when `threshold_min` is not set. */
  const DefaultThreshold: string := "900"

  const MicrosPerMinute: int := 60_000_000
  const MinutesPerDay: int := 1440
  /** A `timedelta` holds at most this many days either way. */
  const MaxDeltaDays: int := 999_999_999
  /** `datetime.min` (0001-01-01 00:00:00) and `datetime.max` (9999-12-31 23:59:59.999999). */
  const MinInstant: int := -62_135_596_800_000_000
  const MaxInstant: int := 253_402_300_799_999_999

  /** What the S3 call returned: the objects under the prefix, in listing order, or an exception. */
  datatype ListingReply = Listed(objects: seq<StorageObject>) | Unavailable

  /** Why a run ended in the error handler instead of a decision. */
  datatype Failure =
    | MissingSetting(name: string)          // KeyError from os.environ[...]
    | BadThreshold(text: string)            // ValueError from int(threshold_min)
    | CutoffOutOfRange(minutes: int)        // OverflowError from timedelta or the subtraction
    | ListingFailed                         // the S3 listing raised
    | BadTimestamp(key: string)             // strptime rejected str(last_modified)

  /** The freshness verdict; `Stale` and `Fresh` carry the selected object. */
  datatype Decision = Empty | Stale(latest: StorageObject) | Fresh(latest: StorageObject)

  datatype Outcome =
    | Decided(threshold: int, cutoff: int, decision: Decision)
    | Failed(failure: Failure)

  /** A message the run asks the notifier to post. */
  datatype Notice =
    | NoBackups(cutoff: int)
    | StaleBackup(threshold: int, name: string, uploaded: int)
    | PipelineError

  /**
   * `datetime.now() - timedelta(minutes=minutes)`: `None` when the timedelta
   * would exceed its range of days or the result would leave the range of datetime.
   */
  function Cutoff(now: int, minutes: int): (r: Option<int>)
    ensures r.Some? ==> MinInstant <= r.value <= MaxInstant && r.value + minutes * MicrosPerMinute == now
    ensures now <= MaxInstant && 0 <= minutes && MinInstant <= now - minutes * MicrosPerMinute ==> r.Some?
  {
    if minutes / MinutesPerDay < -MaxDeltaDays || minutes / MinutesPerDay > MaxDeltaDays then None
    else
      var c := now - minutes * MicrosPerMinute;
      if c < MinInstant || c > MaxInstant then None else Some(c)
  }

  /** The verdict on a listing once threshold and cutoff are known. */
  function Decide(minutes: int, cutoff: int, objs: seq<StorageObject>): (r: Outcome)
    ensures r.Decided? ==> r.threshold == minutes && r.cutoff == cutoff
    ensures r.Decided? ==> (r.decision.Empty? <==> objs == [])
    ensures r.Decided? && !r.decision.Empty? ==> r.decision.latest in objs
    ensures r.Failed? ==> r.failure.BadTimestamp?
  {
    if objs == [] then Decided(minutes, cutoff, Empty)
    else
      var latest := Latest(objs);
      if latest.lastModified % MicrosPerSecond != 0 then Failed(BadTimestamp(latest.key))
      else if cutoff > latest.lastModified then Decided(minutes, cutoff, Stale(latest))
      else Decided(minutes, cutoff, Fresh(latest))
  }

  /** `os.environ.get('threshold_min', '900')`. */
  function ThresholdText(env: Env): (r: string)
    ensures ThresholdVar in env ==> r == env[ThresholdVar]
    ensures ThresholdVar !in env ==> ParseInt(r) == Some(900)
  {
    DefaultThresholdIs900();
    if ThresholdVar in env then env[ThresholdVar] else DefaultThreshold
  }

  /** The steps after `int()` has given the threshold in minutes. */
  function WithThreshold(minutes: int, now: int, listing: ListingReply): (r: Outcome)
    ensures listing.Unavailable? ==> r.Failed?
    ensures Cutoff(now, minutes).None? ==> r == Failed(CutoffOutOfRange(minutes))
    ensures r.Decided? ==> r.threshold == minutes && Cutoff(now, minutes) == Some(r.cutoff)
  {
    match Cutoff(now, minutes)
    case None => Failed(CutoffOutOfRange(minutes))
    case Some(cutoff) =>
      match listing
      case Unavailable => Failed(ListingFailed)
      case Listed(objs) => Decide(minutes, cutoff, objs)
  }

  /** One run of the check, in the order the handler performs its steps. */
  function Check(env: Env, now: int, listing: ListingReply): (r: Outcome)
    ensures BucketVar !in env || PathVar !in env ==> r.Failed? && r.failure.MissingSetting?
    ensures r.Decided? ==> listing.Listed?
  {
    if BucketVar !in env then Failed(MissingSetting(BucketVar))
    else if PathVar !in env then Failed(MissingSetting(PathVar))
    else
      match ParseInt(ThresholdText(env))
      case None => Failed(BadThreshold(ThresholdText(env)))
      case Some(minutes) => WithThreshold(minutes, now, listing)
  }

  /** The messages a run posts: one per alert, one from the error handler, none when fresh. */
  function Notifications(o: Outcome): (r: seq<Notice>)
    ensures |r| <= 1
    ensures forall n :: n in r ==> (n.PipelineError? <==> o.Failed?)
  {
    match o
    case Failed(_) => [PipelineError]
    case Decided(minutes, cutoff, Empty) => [NoBackups(cutoff)]
    case Decided(minutes, cutoff, Stale(latest)) =>
      [StaleBackup(minutes, Basename(latest.key), latest.lastModified)]
    case Decided(_, _, Fresh(_)) => []
  }

  /**
   * The text posted for a notice. Calendar formatting is a parameter: `showDate`
   * for `strftime('%Y-%m-%d')`, `showStamp` for `str()` of a UTC datetime;
   * `logLink` is the console link the error handler builds.
   */
  function Render(n: Notice, showDate: int -> string, showStamp: int -> string, logLink: string): (r: string)
    ensures n.PipelineError? ==> |logLink| <= |r| && r[|r| - |logLink|..] == logLink
    ensures n.NoBackups? ==> |showDate(n.cutoff)| <= |r| && r[|r| - |showDate(n.cutoff)|..] == showDate(n.cutoff)
  {
    match n
    case NoBackups(cutoff) =>
      "Please investigate Internal Tableau backup uploads! No backups uploaded for the last " + showDate(cutoff)
    case StaleBackup(minutes, name, uploaded) =>
      "Please investigate * Internal Tableau Backups*! No backups uploaded for the last " + ShowInt(minutes)
      + " minutes. Last backup " + name + " was uploaded on " + showStamp(uploaded) + " "
    case PipelineError =>
      "Pipeline error: " + logLink
  }

  // ---------------------------------------------------------------------------
  // Properties of a run
  // ---------------------------------------------------------------------------

  /** After `int()`, a verdict needs the cutoff in range and the listing at hand. */
  lemma WithThresholdSteps(minutes: int, now: int, listing: ListingReply)
    requires WithThreshold(minutes, now, listing).Decided?
    ensures var o := WithThreshold(minutes, now, listing);
      && o.threshold == minutes
      && Cutoff(now, minutes) == Some(o.cutoff)
      && listing.Listed?
      && o == Decide(minutes, o.cutoff, listing.objects)
  {
  }

  /** A run reaches a verdict only through every step before it: settings, `int()`, cutoff, listing. */
  lemma DecidedRunSteps(env: Env, now: int, listing: ListingReply)
    requires Check(env, now, listing).Decided?
    ensures var o := Check(env, now, listing);
      && BucketVar in env && PathVar in env
      && ParseInt(ThresholdText(env)) == Some(o.threshold)
      && Cutoff(now, o.threshold) == Some(o.cutoff)
      && listing.Listed?
      && o == Decide(o.threshold, o.cutoff, listing.objects)
  {
    var parsed := ParseInt(ThresholdText(env));
    assert parsed.Some? && Check(env, now, listing) == WithThreshold(parsed.value, now, listing);
    WithThresholdSteps(parsed.value, now, listing);
  }

  /** Once the settings are there and `int()` succeeds, the run goes on with the threshold it read. */
  lemma SettingsRead(env: Env, now: int, listing: ListingReply, minutes: int)
    requires BucketVar in env && PathVar in env && ParseInt(ThresholdText(env)) == Some(minutes)
    ensures Check(env, now, listing) == WithThreshold(minutes, now, listing)
  {
  }

  /** The cutoff lies `minutes` minutes before `now` and inside the range of datetime. */
  lemma CutoffInRange(now: int, minutes: int)
    requires Cutoff(now, minutes).Some?
    ensures Cutoff(now, minutes).value == now - minutes * MicrosPerMinute
    ensures MinInstant <= Cutoff(now, minutes).value <= MaxInstant
  {
  }

  /** A run that reaches a verdict measures the cutoff `threshold` minutes back from `now`. */
  lemma DecidedCutoff(env: Env, now: int, listing: ListingReply)
    requires Check(env, now, listing).Decided?
    ensures var o := Check(env, now, listing);
      o.cutoff == now - o.threshold * MicrosPerMinute && MinInstant <= o.cutoff <= MaxInstant
  {
    DecidedRunSteps(env, now, listing);
    CutoffInRange(now, Check(env, now, listing).threshold);
  }

  /** Every run takes exactly one branch and posts at most one message; only a fresh backup posts none. */
  lemma AtMostOneNotice(o: Outcome)
    ensures |Notifications(o)| <= 1
    ensures Notifications(o) == [] <==> o.Decided? && o.decision.Fresh?
  {
  }

  /**
   * An empty listing, once the settings are good, always leads to the one
   * "no backups" alert, which refers to no object, only to the cutoff.
   */
  lemma EmptyListingAlertsOnce(env: Env, now: int)
    ensures var o := Check(env, now, Listed([]));
      && |Notifications(o)| == 1
      && (o.Decided? ==> o.decision == Empty && Notifications(o) == [NoBackups(o.cutoff)])
  {
    if Check(env, now, Listed([])).Decided? {
      DecidedRunSteps(env, now, Listed([]));
    }
  }

  /**
   * With objects listed, the verdict is about the selected object, and an
   * alert goes out exactly when the cutoff lies strictly after its time; a
   * backup modified exactly at the cutoff counts as fresh.
   */
  lemma AlertIffStrictlyOlder(env: Env, now: int, objs: seq<StorageObject>)
    requires objs != []
    ensures var o := Check(env, now, Listed(objs));
      o.Decided? ==>
        && o.decision != Empty
        && o.decision.latest == Latest(objs)
        && (Notifications(o) != [] <==> o.cutoff > Latest(objs).lastModified)
        && (o.decision.Fresh? <==> Latest(objs).lastModified >= o.cutoff)
  {
    var o := Check(env, now, Listed(objs));
    if o.Decided? {
      DecidedRunSteps(env, now, Listed(objs));
      DecideNonEmpty(o.threshold, o.cutoff, objs);
    }
  }

  /** The verdict on a non-empty listing, once it is reached, concerns `Latest` and is stale exactly when the cutoff is later. */
  lemma DecideNonEmpty(minutes: int, cutoff: int, objs: seq<StorageObject>)
    requires objs != [] && Decide(minutes, cutoff, objs).Decided?
    ensures var o := Decide(minutes, cutoff, objs);
      && o.decision != Empty
      && o.decision.latest == Latest(objs)
      && (Notifications(o) != [] <==> cutoff > Latest(objs).lastModified)
      && (o.decision.Fresh? <==> Latest(objs).lastModified >= cutoff)
  {
  }

  /** Only a selected object whose time has a fraction of a second stops a listed run at the decision step. */
  lemma DecideFailsOnlyOnFraction(minutes: int, cutoff: int, objs: seq<StorageObject>)
    ensures Decide(minutes, cutoff, objs).Failed? <==>
      objs != [] && Latest(objs).lastModified % MicrosPerSecond != 0
  {
  }

  /** The text of a stale alert holds the threshold, in minutes, and the file name. */
  lemma StaleTextMentions(minutes: int, name: string, uploaded: int,
                          showDate: int -> string, showStamp: int -> string, logLink: string)
    ensures var text := Render(StaleBackup(minutes, name, uploaded), showDate, showStamp, logLink);
      Contains(text, ShowInt(minutes)) && Contains(text, name)
  {
    var lead := "Please investigate * Internal Tableau Backups*! No backups uploaded for the last ";
    var number := ShowInt(minutes);
    var middle := " minutes. Last backup ";
    var text := Render(StaleBackup(minutes, name, uploaded), showDate, showStamp, logLink);
    var rest := " was uploaded on " + showStamp(uploaded) + " ";
    assert text == lead + number + middle + name + rest;
    assert OccursAt(text, number, |lead|);
    assert OccursAt(text, name, |lead| + |number| + |middle|);
  }

  /** The stale alert of a run names the threshold, in minutes, and the file name of the selected object. */
  lemma StaleAlertNamesThresholdAndFile(env: Env, now: int, objs: seq<StorageObject>,
                                        showDate: int -> string, showStamp: int -> string, logLink: string)
    requires Check(env, now, Listed(objs)).Decided? && Check(env, now, Listed(objs)).decision.Stale?
    ensures var o := Check(env, now, Listed(objs));
      var text := Render(Notifications(o)[0], showDate, showStamp, logLink);
      |Notifications(o)| == 1
      && Contains(text, ShowInt(o.threshold))
      && Contains(text, Basename(o.decision.latest.key))
  {
    var o := Check(env, now, Listed(objs));
    var latest := o.decision.latest;
    assert Notifications(o) == [StaleBackup(o.threshold, Basename(latest.key), latest.lastModified)];
    StaleTextMentions(o.threshold, Basename(latest.key), latest.lastModified, showDate, showStamp, logLink);
  }

  /** When `threshold_min` is unset the run behaves as if it were "900". */
  lemma ThresholdDefaultsTo900(env: Env, now: int, listing: ListingReply)
    requires ThresholdVar !in env
    ensures Check(env, now, listing) == Check(env[ThresholdVar := DefaultThreshold], now, listing)
    ensures Check(env, now, listing).Decided? ==> Check(env, now, listing).threshold == 900
  {
    var env' := env[ThresholdVar := DefaultThreshold];
    assert ThresholdText(env) == ThresholdText(env');
    assert (BucketVar in env) == (BucketVar in env') && (PathVar in env) == (PathVar in env');
    if Check(env, now, listing).Decided? {
      DecidedRunSteps(env, now, listing);
      DefaultThresholdIs900();
    }
  }

  /** `int('900')` is 900. */
  lemma DefaultThresholdIs900()
    ensures ParseInt(DefaultThreshold) == Some(900)
  {
    var s := DefaultThreshold;
    assert s[0] == '9' && s[1] == '0' && s[2] == '0';
    assert DigitsValue(s[..1]) == 9;
    assert DigitsValue(s[..2]) == 90;
    assert DigitsValue(s) == 900;
    ParseDigitsOnly(s);
  }

  /**
   * A threshold `int()` rejects sends the run to the error handler before any
   * listing is looked at: the outcome is the same whatever the listing, and the
   * only message is the pipeline error.
   */
  lemma BadThresholdFailsBeforeListing(env: Env, now: int, listing: ListingReply)
    requires BucketVar in env && PathVar in env && ThresholdVar in env
    requires ParseInt(env[ThresholdVar]) == None
    ensures Check(env, now, listing) == Failed(BadThreshold(env[ThresholdVar]))
    ensures Notifications(Check(env, now, listing)) == [PipelineError]
  {
  }

  /** A threshold with a unit after it, such as "15m", is not an integer. */
  lemma ThresholdWithUnitFails(env: Env, now: int, listing: ListingReply)
    requires BucketVar in env && PathVar in env
    ensures Check(env[ThresholdVar := "15m"], now, listing) == Failed(BadThreshold("15m"))
  {
    ParseIntRejectsForeign("15m", 2);
  }

  /** Every timestamp of the listing is a whole second, as `strptime` expects. */
  predicate WholeSeconds(objs: seq<StorageObject>) {
    forall i :: 0 <= i < |objs| ==> objs[i].lastModified % MicrosPerSecond == 0
  }

  /**
   * Against a reference that needs no sorting: with whole-second times, the
   * listing is stale exactly when every object in it is older than the cutoff.
   */
  lemma StaleIffEveryObjectOlder(minutes: int, cutoff: int, objs: seq<StorageObject>)
    requires objs != [] && WholeSeconds(objs)
    ensures Decide(minutes, cutoff, objs).Decided?
    ensures Decide(minutes, cutoff, objs).decision.Stale? <==>
      forall i :: 0 <= i < |objs| ==> objs[i].lastModified < cutoff
  {
    LatestIsLastMaximal(objs);
    var m := LastMaxIndex(objs);
    assert objs[m].lastModified == SortKey(objs[m]) * MicrosPerSecond;
    forall i | 0 <= i < |objs| ensures objs[i].lastModified <= objs[m].lastModified {
      assert objs[i].lastModified == SortKey(objs[i]) * MicrosPerSecond;
    }
  }

  /**
   * With whole-second times the verdict does not depend on the order of the
   * listing, although the object named in a stale alert may (see `TieGoesToLaterListed`).
   */
  lemma VerdictIgnoresListingOrder(minutes: int, cutoff: int, s: seq<StorageObject>, t: seq<StorageObject>)
    requires s != [] && WholeSeconds(s) && multiset(s) == multiset(t)
    ensures WholeSeconds(t)
    ensures Decide(minutes, cutoff, s).Decided? && Decide(minutes, cutoff, t).Decided?
    ensures Decide(minutes, cutoff, s).decision.Stale? == Decide(minutes, cutoff, t).decision.Stale?
  {
    forall i | 0 <= i < |t| ensures t[i].lastModified % MicrosPerSecond == 0 {
      assert t[i] in multiset(s);
    }
    StaleIffEveryObjectOlder(minutes, cutoff, s);
    LatestKeyIgnoresOrder(s, t);
    StaleIffEveryObjectOlder(minutes, cutoff, t);
    forall i | 0 <= i < |s| ensures s[i] in t {
      assert s[i] in multiset(t);
    }
    forall i | 0 <= i < |t| ensures t[i] in s {
      assert t[i] in multiset(s);
    }
  }

  // ---------------------------------------------------------------------------
  // Worked runs
  // ---------------------------------------------------------------------------

  const Day: int := 86_400_000_000
  /** 2024-01-01 00:00:00 UTC. */
  const Jan1st2024: int := 1_704_067_200_000_000

  /** The file name in the two-backup run below. */
  lemma TwoDayBackupName()
    ensures Basename("tableau/int/two.tsbak") == "two.tsbak"
  {
    var key := "tableau/int/two.tsbak";
    assert key[|key| - 9..] == "two.tsbak" && key[|key| - 10] == '/';
    BasenameUnique(key, "two.tsbak");
  }

  /**
   * Backups ten days and two days old against a one-day threshold: stale, and
   * the alert names the two-day-old file.
   */
  lemma TwoOldBackupsAreStale()
    ensures var older := StorageObject("tableau/int/ten.tsbak", Jan1st2024 - 10 * Day);
      var newer := StorageObject("tableau/int/two.tsbak", Jan1st2024 - 2 * Day);
      Notifications(WithThreshold(1440, Jan1st2024, Listed([newer, older]))) ==
        [StaleBackup(1440, "two.tsbak", Jan1st2024 - 2 * Day)]
  {
    var older := StorageObject("tableau/int/ten.tsbak", Jan1st2024 - 10 * Day);
    var newer := StorageObject("tableau/int/two.tsbak", Jan1st2024 - 2 * Day);
    assert Cutoff(Jan1st2024, 1440) == Some(Jan1st2024 - Day);
    LatestIsLastMaximal([newer, older]);
    assert SortKey(older) < SortKey(newer);
    assert Latest([newer, older]) == newer;
    assert WithThreshold(1440, Jan1st2024, Listed([newer, older])) == Decided(1440, Jan1st2024 - Day, Stale(newer));
    TwoDayBackupName();
  }

  /** The two backups above against the default 900 minutes are stale as well. */
  lemma OldBackupsStaleAtDefault(older: StorageObject, newer: StorageObject)
    requires older == StorageObject("tableau/int/ten.tsbak", Jan1st2024 - 10 * Day)
    requires newer == StorageObject("tableau/int/two.tsbak", Jan1st2024 - 2 * Day)
    ensures WithThreshold(900, Jan1st2024, Listed([newer, older])) == Decided(900, Jan1st2024 - 900 * MicrosPerMinute, Stale(newer))
  {
    assert Cutoff(Jan1st2024, 900) == Some(Jan1st2024 - 900 * MicrosPerMinute);
    LatestIsLastMaximal([newer, older]);
    assert SortKey(older) < SortKey(newer);
    assert Latest([newer, older]) == newer;
  }

  /**
   * A whole run with the bucket and path set and `threshold_min` unset: those
   * two backups are stale, and the one alert names the two-day-old file.
   */
  lemma DefaultRunOnOldBackupsIsStale(env: Env, older: StorageObject, newer: StorageObject)
    requires env == map[BucketVar := "backups", PathVar := "tableau/int"]
    requires older == StorageObject("tableau/int/ten.tsbak", Jan1st2024 - 10 * Day)
    requires newer == StorageObject("tableau/int/two.tsbak", Jan1st2024 - 2 * Day)
    ensures var o := Check(env, Jan1st2024, Listed([newer, older]));
      o.Decided? && o.decision == Stale(newer)
      && Notifications(o) == [StaleBackup(900, "two.tsbak", Jan1st2024 - 2 * Day)]
  {
    assert ThresholdVar !in env;
    SettingsRead(env, Jan1st2024, Listed([newer, older]), 900);
    OldBackupsStaleAtDefault(older, newer);
    TwoDayBackupName();
  }

  /** One backup half an hour old against the default threshold: fresh, nothing posted. */
  lemma RecentBackupIsFresh()
    ensures var recent := StorageObject("tableau/int/now.tsbak", Jan1st2024 - 30 * MicrosPerMinute);
      var o := WithThreshold(900, Jan1st2024, Listed([recent]));
      o.Decided? && o.decision == Fresh(recent) && Notifications(o) == []
  {
    var recent := StorageObject("tableau/int/now.tsbak", Jan1st2024 - 30 * MicrosPerMinute);
    assert Cutoff(Jan1st2024, 900) == Some(Jan1st2024 - 900 * MicrosPerMinute);
    assert Latest([recent]) == recent;
  }
}
