/** GET /api/github/activity (server/api/github/activity.get.ts): a summary of recent
    GitHub activity, served from a one-row cache for fifteen minutes.

    The GitHub requests are abstract replies. Time is an explicit clock in seconds, the
    local hour of day and local calendar day numbers are inputs, and elapsed hours are
    real numbers. */
module Activity {
  import opened Wrappers
  import Strings

  // ---------------------------------------------------------------------------
  // Pure helpers

  datatype TimeOfDay = Sleep | Morning | Office | Evening | Night

  /** `getTimeOfDay` for the local hour `hour`. */
  function TimeOfDayOf(hour: int): TimeOfDay {
    if 3 <= hour < 9 then Sleep
    else if 9 <= hour < 12 then Morning
    else if 12 <= hour < 18 then Office
    else if 18 <= hour < 24 then Evening
    else Night
  }

  /** The bucket of every hour of the day, written out as a table. */
  const HourTable: seq<TimeOfDay> := [
    Night, Night, Night,
    Sleep, Sleep, Sleep, Sleep, Sleep, Sleep,
    Morning, Morning, Morning,
    Office, Office, Office, Office, Office, Office,
    Evening, Evening, Evening, Evening, Evening, Evening]

  /** The buckets cover the day: every hour 0–23 falls in the bucket the table gives it. */
  lemma TimeOfDayMatchesTable(hour: int)
    requires 0 <= hour < 24
    ensures TimeOfDayOf(hour) == HourTable[hour]
  {
  }

  /** The text of a non-negative whole number. */
  function Count(n: nat): string {
    Strings.NatToDecimal(n)
  }

  /** `formatTimeAgo`. */
  function FormatTimeAgo(hoursAgo: real): string {
    if hoursAgo < 1.0 then "JUST NOW"
    else if hoursAgo < 2.0 then "1H AGO"
    else if hoursAgo < 24.0 then Count(hoursAgo.Floor) + "H AGO"
    else
      var daysAgo := (hoursAgo / 24.0).Floor;
      if daysAgo == 1 then "1 DAY AGO" else Count(daysAgo) + " DAYS AGO"
  }

  /** Under an hour the text holds no number. */
  lemma JustNowHasNoNumber()
    ensures Strings.ParseInt("JUST NOW").None?
  {
    var text := "JUST NOW";
    assert text[0] == 'J';
    assert Strings.TrimStart(text) == text;
    assert Strings.DigitPrefix(text) == [];
  }

  /** Below a day and from an hour on, the text is the whole number of hours and its unit. */
  lemma HoursText(hoursAgo: real)
    requires 1.0 <= hoursAgo < 24.0
    ensures 1 <= hoursAgo.Floor
    ensures FormatTimeAgo(hoursAgo) == Count(hoursAgo.Floor) + "H AGO"
  {
    if hoursAgo < 2.0 {
      assert hoursAgo.Floor == 1;
      assert Count(1) == "1";
    }
  }

  lemma HoursTextReadsBack(hoursAgo: real)
    requires 1.0 <= hoursAgo < 24.0
    ensures Strings.ParseInt(FormatTimeAgo(hoursAgo)) == Some(hoursAgo.Floor)
  {
    HoursText(hoursAgo);
    Strings.ParseIntOfLeadingNumber(hoursAgo.Floor, "H AGO");
  }

  /** From a day on, the text is the whole number of days and its unit. */
  lemma DaysText(hoursAgo: real)
    requires 24.0 <= hoursAgo
    ensures 1 <= (hoursAgo / 24.0).Floor
    ensures FormatTimeAgo(hoursAgo) ==
      if (hoursAgo / 24.0).Floor == 1 then Count(1) + " DAY AGO" else Count((hoursAgo / 24.0).Floor) + " DAYS AGO"
  {
    assert 1.0 <= hoursAgo / 24.0;
    assert Count(1) == "1";
  }

  lemma DaysTextReadsBack(hoursAgo: real)
    requires 24.0 <= hoursAgo
    ensures Strings.ParseInt(FormatTimeAgo(hoursAgo)) == Some((hoursAgo / 24.0).Floor)
  {
    DaysText(hoursAgo);
    var daysAgo := (hoursAgo / 24.0).Floor;
    if daysAgo == 1 {
      Strings.ParseIntOfLeadingNumber(1, " DAY AGO");
    } else {
      Strings.ParseIntOfLeadingNumber(daysAgo, " DAYS AGO");
    }
  }

  predicate EndsWith(text: string, suffix: string) {
    |suffix| <= |text| && text[|text| - |suffix|..] == suffix
  }

  lemma EndsWithAppend(prefix: string, suffix: string)
    ensures EndsWith(prefix + suffix, suffix)
  {
    assert (prefix + suffix)[|prefix|..] == suffix;
  }

  /** The number `parseInt` reads from the front of the text is the whole hours below a
      day and the whole days from one day on; only under an hour is there none. The unit
      follows the number: hours below a day, days from the second day on. */
  lemma FormatTimeAgoReadsBack(hoursAgo: real)
    ensures hoursAgo < 1.0 <==> Strings.ParseInt(FormatTimeAgo(hoursAgo)).None?
    ensures 1.0 <= hoursAgo < 24.0 ==>
      && Strings.ParseInt(FormatTimeAgo(hoursAgo)) == Some(hoursAgo.Floor)
      && EndsWith(FormatTimeAgo(hoursAgo), "H AGO")
    ensures 24.0 <= hoursAgo ==> Strings.ParseInt(FormatTimeAgo(hoursAgo)) == Some((hoursAgo / 24.0).Floor)
    ensures 48.0 <= hoursAgo ==> EndsWith(FormatTimeAgo(hoursAgo), " DAYS AGO")
  {
    if hoursAgo < 1.0 {
      JustNowHasNoNumber();
    } else if hoursAgo < 24.0 {
      HoursTextReadsBack(hoursAgo);
      HoursText(hoursAgo);
      EndsWithAppend(Count(hoursAgo.Floor), "H AGO");
    } else {
      DaysTextReadsBack(hoursAgo);
      DaysText(hoursAgo);
      if 48.0 <= hoursAgo {
        assert 2.0 <= hoursAgo / 24.0;
        EndsWithAppend(Count((hoursAgo / 24.0).Floor), " DAYS AGO");
      }
    }
  }

  /** The text counts days when it ends in ` DAY AGO` or ` DAYS AGO`. */
  predicate CountsDays(text: string) {
    EndsWith(text, " DAY AGO") || EndsWith(text, " DAYS AGO")
  }

  /** "1 DAY AGO" is exactly the second day. */
  lemma OneDayAgoIsSecondDay(hoursAgo: real)
    ensures FormatTimeAgo(hoursAgo) == "1 DAY AGO" <==> 24.0 <= hoursAgo < 48.0
  {
    if 24.0 <= hoursAgo {
      var daysAgo := (hoursAgo / 24.0).Floor;
      if hoursAgo < 48.0 {
        assert 1.0 <= hoursAgo / 24.0 < 2.0;
      } else {
        assert 2.0 <= hoursAgo / 24.0;
        assert |Count(daysAgo) + " DAYS AGO"| >= 10;
      }
    } else if 2.0 <= hoursAgo {
      var text := Count(hoursAgo.Floor) + "H AGO";
      assert text[|text| - 5] == 'H';
    }
  }

  /** A text in hours does not count days. */
  lemma HoursTextCountsNoDays(text: string)
    requires EndsWith(text, "H AGO")
    ensures !CountsDays(text)
  {
    assert text[|text| - 5] == 'H';
    if |text| >= 8 {
      assert text[|text| - 8..][3] == text[|text| - 5];
    }
    if |text| >= 9 {
      assert text[|text| - 9..][4] == text[|text| - 5];
    }
  }

  /** The text counts days exactly from 24 hours on; below that it says `JUST NOW` or hours. */
  lemma FormatTimeAgoCountsDays(hoursAgo: real)
    ensures CountsDays(FormatTimeAgo(hoursAgo)) <==> 24.0 <= hoursAgo
  {
    var text := FormatTimeAgo(hoursAgo);
    if hoursAgo < 1.0 {
      assert text == "JUST NOW";
      assert text[0] != " DAY AGO"[0];
    } else if hoursAgo < 48.0 {
      OneDayAgoIsSecondDay(hoursAgo);
      if hoursAgo < 24.0 {
        FormatTimeAgoReadsBack(hoursAgo);
        HoursTextCountsNoDays(text);
      } else {
        assert text[|text| - 8..] == " DAY AGO";
      }
    } else {
      FormatTimeAgoReadsBack(hoursAgo);
    }
  }

  /** The longest message shown before it is cut. */
  const MaxMessageLength: nat := 30

  /** A message longer than the limit becomes its first 30 characters and `...`. */
  function Truncate(message: string): (r: string)
    ensures |message| <= MaxMessageLength ==> r == message
    ensures |message| > MaxMessageLength ==>
      && |r| == MaxMessageLength + 3
      && r[..MaxMessageLength] == message[..MaxMessageLength]
      && r[MaxMessageLength..] == "..."
  {
    if |message| > MaxMessageLength then message[..MaxMessageLength] + "..." else message
  }

  /** Cutting a cut message changes nothing, and no result is longer than 33 characters. */
  lemma TruncateIdempotent(message: string)
    ensures Truncate(Truncate(message)) == Truncate(message)
    ensures |Truncate(message)| <= MaxMessageLength + 3
  {
    if |message| > MaxMessageLength {
      var r := Truncate(message);
      assert r[..MaxMessageLength] + "..." == r;
    }
  }

  const DefaultCommitMessage: string := "Recent commit"

  /** The commit lookup: the request was skipped or failed, or it returned the full message. */
  datatype CommitReply = NoCommitMessage | CommitMessage(message: string)

  /** The first line of the fetched message, or the default. */
  function CommitHeadline(reply: CommitReply): (r: string)
    ensures reply.NoCommitMessage? ==> r == DefaultCommitMessage
    ensures reply.CommitMessage? ==> r <= reply.message && '\n' !in r
    ensures reply.CommitMessage? && |r| < |reply.message| ==> reply.message[|r|] == '\n'
  {
    match reply
    case NoCommitMessage => DefaultCommitMessage
    case CommitMessage(message) => Strings.FirstLine(message)
  }

  // ---------------------------------------------------------------------------
  // Streak

  /** How many consecutive days from `day` backwards, at most `limit`, are in `days`. */
  function RunBack(days: set<int>, day: int, limit: nat): (n: nat)
    ensures n <= limit
    decreases limit
  {
    if limit == 0 || day !in days then 0 else 1 + RunBack(days, day - 1, limit - 1)
  }

  /** Today counts if it has a push; then the unbroken run of days with pushes ending
      yesterday, looking back at most 29 days. */
  function StreakOf(days: set<int>, today: int): (n: nat)
    ensures n <= 30
  {
    (if today in days then 1 else 0) + RunBack(days, today - 1, 29)
  }

  /** The day `k` days before `day`. */
  function DaysBefore(day: int, k: int): int {
    day - k
  }

  lemma {:induction false} RunBackExactly(days: set<int>, day: int, limit: nat, n: nat)
    requires n <= limit
    requires forall k | 0 <= k < n :: DaysBefore(day, k) in days
    requires n == limit || day - n !in days
    ensures RunBack(days, day, limit) == n
    decreases n
  {
    if n > 0 {
      assert DaysBefore(day, 0) in days;
      var prev := day - 1;
      forall k | 0 <= k < n - 1 ensures DaysBefore(prev, k) in days {
        assert DaysBefore(prev, k) == DaysBefore(day, k + 1);
      }
      RunBackExactly(days, prev, limit - 1, n - 1);
    }
  }

  /** The loop as written: thirty days back from today; a day without a push ends it,
      except today. */
  method Streak(days: set<int>, today: int) returns (streak: nat)
    ensures streak == StreakOf(days, today)
  {
    streak := 0;
    var i := 0;
    while i < 30
      invariant 0 <= i <= 30
      invariant i == 0 ==> streak == 0
      invariant i > 0 ==> streak == (if today in days then 1 else 0) + (i - 1)
      invariant forall k | 1 <= k < i :: DaysBefore(today, k) in days
    {
      if today - i in days {
        streak := streak + 1;
      } else if i > 0 {
        var yesterday := today - 1;
        forall k | 0 <= k < i - 1 ensures DaysBefore(yesterday, k) in days {
          assert DaysBefore(yesterday, k) == DaysBefore(today, k + 1);
        }
        RunBackExactly(days, yesterday, 29, i - 1);
        return;
      }
      i := i + 1;
    }
    var yesterday := today - 1;
    forall k | 0 <= k < 29 ensures DaysBefore(yesterday, k) in days {
      assert DaysBefore(yesterday, k) == DaysBefore(today, k + 1);
    }
    RunBackExactly(days, yesterday, 29, 29);
  }

  // ---------------------------------------------------------------------------
  // Fetching

  /** An entry of the events feed: whether it is a push, its instant, its local calendar
      day, its repository's full name and the pushed head commit. */
  datatype Event = Event(isPush: bool, createdAt: int, day: int, repoName: string, head: Option<string>)

  /** The requests `fetchGitHubActivity` makes. `weekContributions` is `None` when the
      GraphQL request fails, else the reported total, if any; `events` is `None` when the
      events request fails; `languages` is the percentage map already computed from the
      per-repository language requests. */
  datatype Upstream = Upstream(
    tokenSet: bool, weekContributions: Option<Option<int>>, events: Option<seq<Event>>,
    commit: CommitReply, languages: map<string, int>)

  datatype LastCommit = LastCommit(message: string, hoursAgo: Option<real>, timeText: string, url: string)

  datatype ActivityReport = ActivityReport(
    isActive: bool, lastCommit: Option<LastCommit>, weekCommits: int, streak: int,
    languages: map<string, int>, currentRepo: Option<string>, timeOfDay: TimeOfDay)

  /** The report for a quiet account, and the fallback when fetching fails. */
  function QuietReport(hour: int): ActivityReport {
    ActivityReport(false, None, 0, 0, map[], None, TimeOfDayOf(hour))
  }

  const MockLanguages: map<string, int> := map["TypeScript" := 85, "Vue" := 12, "SQL" := 3]

  /** The text before the first `/`. */
  function BeforeSlash(s: string): (r: string)
    ensures r <= s && '/' !in r
  {
    if s == [] || s[0] == '/' then [] else [s[0]] + BeforeSlash(s[1..])
  }

  /** `name.split('/')[1]`: the text after the first `/` up to the next one, `None`
      (JavaScript's `undefined`) when there is no `/`. */
  function SecondSegment(name: string): Option<string> {
    if name == [] then None
    else if name[0] == '/' then Some(BeforeSlash(name[1..]))
    else SecondSegment(name[1..])
  }

  /** The current repository is the repository part of an `owner/repo` full name. */
  lemma {:induction false} SecondSegmentOfFullName(owner: string, repo: string)
    requires '/' !in owner && '/' !in repo
    ensures SecondSegment(owner + "/" + repo) == Some(repo)
  {
    if owner == [] {
      assert (owner + "/" + repo)[1..] == repo;
      BeforeSlashWhole(repo);
    } else {
      assert (owner + "/" + repo)[1..] == owner[1..] + "/" + repo;
      SecondSegmentOfFullName(owner[1..], repo);
    }
  }

  lemma {:induction false} BeforeSlashWhole(s: string)
    requires '/' !in s
    ensures BeforeSlash(s) == s
  {
    if s != [] {
      BeforeSlashWhole(s[1..]);
      assert s == [s[0]] + s[1..];
    }
  }

  function PushDays(pushes: seq<Event>): set<int> {
    set k | 0 <= k < |pushes| :: pushes[k].day
  }

  function PushesOf(events: seq<Event>): (pushes: seq<Event>)
    ensures forall k | 0 <= k < |pushes| :: pushes[k].isPush && pushes[k] in events
  {
    if events == [] then []
    else if events[0].isPush then [events[0]] + PushesOf(events[1..])
    else PushesOf(events[1..])
  }

  /** `fetchGitHubActivity` at instant `now`, local hour `hour` and local day `today`;
      `None` is its `null`. */
  function Fetch(up: Upstream, now: int, hour: int, today: int): (r: Option<ActivityReport>)
    ensures r.None? <==> !up.tokenSet || up.weekContributions.None? || up.events.None?
    ensures r.Some? && PushesOf(up.events.value) == [] ==> r == Some(QuietReport(hour))
    ensures r.Some? && PushesOf(up.events.value) != [] ==>
      var last := PushesOf(up.events.value)[0];
      var hoursAgo := (now - last.createdAt) as real / 3600.0;
      && r.value.isActive == (hoursAgo < 24.0)
      && r.value.lastCommit.Some?
      && r.value.lastCommit.value.message ==
           Truncate(if Strings.Truthy(last.head) then CommitHeadline(up.commit) else DefaultCommitMessage)
      && |r.value.lastCommit.value.message| <= MaxMessageLength + 3
      && r.value.lastCommit.value.hoursAgo == Some(hoursAgo)
      && r.value.lastCommit.value.timeText == FormatTimeAgo(hoursAgo)
      && r.value.lastCommit.value.url == "https://github.com/" + last.repoName + "/commit/" + last.head.GetOr("undefined")
      && r.value.weekCommits == up.weekContributions.value.GetOr(0)
      && r.value.streak == StreakOf(PushDays(PushesOf(up.events.value)), today)
      && r.value.languages == (if |up.languages| > 0 then up.languages else MockLanguages)
      && r.value.languages != map[]
      && r.value.currentRepo == SecondSegment(last.repoName)
      && r.value.timeOfDay == TimeOfDayOf(hour)
  {
    if !up.tokenSet || up.weekContributions.None? || up.events.None? then None
    else
      var pushes := PushesOf(up.events.value);
      if pushes == [] then Some(QuietReport(hour))
      else
        var last := pushes[0];
        var hoursAgo := (now - last.createdAt) as real / 3600.0;
        var headline := if Strings.Truthy(last.head) then CommitHeadline(up.commit) else DefaultCommitMessage;
        var url := "https://github.com/" + last.repoName + "/commit/" + (if last.head.Some? then last.head.value else "undefined");
        var weekCommits := match up.weekContributions.value case None => 0 case Some(n) => n;
        TruncateIdempotent(headline);
        Some(ActivityReport(
          hoursAgo < 24.0,
          Some(LastCommit(Truncate(headline), Some(hoursAgo), FormatTimeAgo(hoursAgo), url)),
          weekCommits,
          StreakOf(PushDays(pushes), today),
          if |up.languages| > 0 then up.languages else MockLanguages,
          SecondSegment(last.repoName),
          TimeOfDayOf(hour)))
  }

  /** The report is active exactly when its time text does not count days, and a
      short first line of a fetched commit message is shown whole. */
  lemma FetchedReportAgrees(up: Upstream, now: int, hour: int, today: int)
    requires Fetch(up, now, hour, today).Some? && PushesOf(up.events.value) != []
    ensures var r := Fetch(up, now, hour, today).value;
      && (r.isActive <==> !CountsDays(r.lastCommit.value.timeText))
      && (Strings.Truthy(PushesOf(up.events.value)[0].head) && up.commit.CommitMessage?
          && |Strings.FirstLine(up.commit.message)| <= MaxMessageLength ==>
            r.lastCommit.value.message == Strings.FirstLine(up.commit.message))
  {
    var last := PushesOf(up.events.value)[0];
    FormatTimeAgoCountsDays((now - last.createdAt) as real / 3600.0);
  }

  // ---------------------------------------------------------------------------
  // Cache

  /** Fifteen minutes, in seconds. */
  const CacheTtl: int := 15 * 60

  /** Row 1 of `github_activity_cache`. `cachedAt` is null until the first save. */
  datatype CacheRow = CacheRow(
    lastCommitMessage: Option<string>, lastCommitUrl: Option<string>, lastCommitHoursAgo: Option<real>,
    weekCommits: int, streak: int, languages: map<string, int>, currentRepo: Option<string>,
    isActive: int, cachedAt: Option<int>)

  /** `x || null` for a number: zero is stored as null. */
  function NonZeroOrNull(x: Option<real>): Option<real> {
    if x.Some? && x.value != 0.0 then x else None
  }

  function OrNull(x: Option<string>): Option<string> {
    if Strings.Truthy(x) then x else None
  }

  /** The row is fresh while `cached_at` plus fifteen minutes is after `now`. */
  predicate IsFresh(row: CacheRow, now: int) {
    row.cachedAt.Some? && row.cachedAt.value + CacheTtl > now
  }

  /** `getCachedActivity`: the row is used only while fresh; `timeText` and the time of day
      are recomputed. */
  function LoadCache(cache: Option<CacheRow>, now: int, hour: int): (r: Option<ActivityReport>)
    ensures r.Some? <==> cache.Some? && IsFresh(cache.value, now)
    ensures r.Some? ==> r.value.timeOfDay == TimeOfDayOf(hour)
    ensures r.Some? ==> (r.value.lastCommit.Some? <==> Strings.Truthy(cache.value.lastCommitMessage))
  {
    match cache
    case None => None
    case Some(row) =>
      if !IsFresh(row, now) then None
      else
        var lastCommit :=
          if Strings.Truthy(row.lastCommitMessage) then
            var hoursAgo := row.lastCommitHoursAgo;
            Some(LastCommit(row.lastCommitMessage.value, hoursAgo,
                            FormatTimeAgo(if hoursAgo.Some? then hoursAgo.value else 0.0),
                            if row.lastCommitUrl.Some? then row.lastCommitUrl.value else ""))
          else None;
        Some(ActivityReport(row.isActive != 0, lastCommit, row.weekCommits, row.streak, row.languages,
                            row.currentRepo, TimeOfDayOf(hour)))
  }

  /** `saveActivityCache`: an update of row 1, which does nothing when the row is missing. */
  function SaveCache(cache: Option<CacheRow>, report: ActivityReport, now: int): (r: Option<CacheRow>)
    ensures r.Some? <==> cache.Some?
    ensures r.Some? ==> IsFresh(r.value, now)
  {
    match cache
    case None => None
    case Some(_) =>
      var c := report.lastCommit;
      Some(CacheRow(
        if c.Some? then OrNull(Some(c.value.message)) else None,
        if c.Some? then OrNull(Some(c.value.url)) else None,
        if c.Some? then NonZeroOrNull(c.value.hoursAgo) else None,
        report.weekCommits, report.streak, report.languages, report.currentRepo,
        if report.isActive then 1 else 0, Some(now)))
  }

  /** What reading back a saved report gives at local hour `hour`: the same report, except
      that a last commit with an empty message is lost and zero hours ago reads back as
      null (with the same `timeText`). */
  function AsCached(report: ActivityReport, hour: int): ActivityReport {
    var lastCommit :=
      match report.lastCommit
      case None => None
      case Some(c) =>
        if c.message == "" then None
        else Some(c.(hoursAgo := NonZeroOrNull(c.hoursAgo)));
    report.(lastCommit := lastCommit, timeOfDay := TimeOfDayOf(hour))
  }

  /** A report saved now reads back, while fresh, as `AsCached` says. */
  lemma SaveThenLoad(cache: Option<CacheRow>, report: ActivityReport, now: int, later: int, hour: int)
    requires cache.Some? && now <= later < now + CacheTtl
    requires report.lastCommit.Some? ==>
      report.lastCommit.value.timeText == FormatTimeAgo(report.lastCommit.value.hoursAgo.GetOr(0.0))
    ensures LoadCache(SaveCache(cache, report, now), later, hour) == Some(AsCached(report, hour))
  {
  }

  /** The handler's answer, the cache afterwards, and whether GitHub was asked. */
  datatype Served = Served(report: ActivityReport, cache: Option<CacheRow>, fetched: bool)

  /** The handler: a fresh cache answers without fetching; otherwise a successful fetch is
      saved and returned, and a failed one returns the quiet report and saves nothing. */
  function Handle(cache: Option<CacheRow>, up: Upstream, now: int, hour: int, today: int): (r: Served)
    ensures cache.Some? && IsFresh(cache.value, now) ==>
      !r.fetched && r.cache == cache && Some(r.report) == LoadCache(cache, now, hour)
    ensures !(cache.Some? && IsFresh(cache.value, now)) ==> r.fetched
    ensures r.fetched && Fetch(up, now, hour, today).Some? ==>
      r.report == Fetch(up, now, hour, today).value && r.cache == SaveCache(cache, r.report, now)
    ensures r.fetched && Fetch(up, now, hour, today).None? ==> r.report == QuietReport(hour) && r.cache == cache
  {
    match LoadCache(cache, now, hour)
    case Some(report) => Served(report, cache, false)
    case None =>
      match Fetch(up, now, hour, today)
      case Some(report) => Served(report, SaveCache(cache, report, now), true)
      case None => Served(QuietReport(hour), cache, true)
  }

  /** After a successful fetch into an existing row, every request in the next fifteen
      minutes is answered from the cache, without asking GitHub, with the fetched report
      as the cache keeps it. */
  lemma FetchedReportServedUntilExpiry(cache: Option<CacheRow>, up: Upstream, up': Upstream,
                                       now: int, later: int, hour: int, hour': int, today: int, today': int)
    requires cache.Some? && !IsFresh(cache.value, now)
    requires Fetch(up, now, hour, today).Some?
    requires now <= later < now + CacheTtl
    ensures var first := Handle(cache, up, now, hour, today);
      var second := Handle(first.cache, up', later, hour', today');
      && !second.fetched
      && second.report == AsCached(first.report, hour')
  {
    var report := Fetch(up, now, hour, today).value;
    SaveThenLoad(cache, report, now, later, hour');
  }

  /** A failed fetch leaves a stale cache stale: the next request asks GitHub again. */
  lemma FailedFetchRetriesNextTime(cache: Option<CacheRow>, up: Upstream, up': Upstream,
                                   now: int, later: int, hour: int, today: int)
    requires !(cache.Some? && IsFresh(cache.value, now))
    requires Fetch(up, now, hour, today).None?
    requires now <= later
    ensures Handle(Handle(cache, up, now, hour, today).cache, up', later, hour, today).fetched
  {
  }
}
