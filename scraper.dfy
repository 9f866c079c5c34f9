/**
 * scrape_pcc: the walk over the listing page's film containers. Each
 * container with a title and a performance list is processed: its children
 * are read in order, a date heading sets the date in force, and every
 * performance item with a readable time under a date in force becomes one
 * screening record. Containers without a title or without a list are
 * counted as skipped. The page itself is an input: fetching and the HTML
 * selectors are outside the model, which starts from the containers those
 * selectors find.
 */
module Scraper {
  import opened Optional
  import opened Text
  import opened Calendar
  import opened DateHeading
  import opened ClockTime
  import Seqs

  const Venue := "Prince Charles Cinema"

  /** One child node of a performance list, as the loop tells them apart. */
  datatype Child =
    | Heading(text: string)                    // a div with class "heading"; its text
    | Performance(timeSpan: Option<string>)    // an li; the text of its span.time, if it has one
    | Ignored                                  // text nodes and any other tag

  /** One film container: the text of its title anchor and its performance list, each if present. */
  datatype FilmContainer = FilmContainer(titleAnchor: Option<string>, performanceList: Option<seq<Child>>)

  /** One emitted record: venue, film title, ISO date text and "HH:MM" time text. */
  datatype Screening = Screening(venue: string, film: string, date: string, time: string)

  /** The stripped title text; the empty string when there is no anchor (both are falsy in the source). */
  function FilmTitle(c: FilmContainer): (t: string)
    ensures Trimmed(t)
  {
    match c.titleAnchor
    case None => []
    case Some(text) => Strip(text)
  }

  predicate IsSkipped(c: FilmContainer) {
    FilmTitle(c) == [] || c.performanceList.None?
  }

  // ---------------------------------------------------------------------
  // Fold functions that specify the loop, one child at a time
  // ---------------------------------------------------------------------

  /**
   * The date in force after the children cs: what the last heading among
   * them parsed to, a failed heading leaving no date; None before any heading.
   */
  function DateAfter(cs: seq<Child>, currentYear: nat, today: Date): (r: Option<Date>)
    requires ValidDate(today)
    ensures r.Some? ==> ValidDate(r.value)
  {
    if cs == [] then None
    else if cs[|cs| - 1].Heading? then ParsePccDate(Strip(cs[|cs| - 1].text), currentYear, today)
    else DateAfter(cs[..|cs| - 1], currentYear, today)
  }

  /** The records one child adds when the date in force is current: at most one. */
  function ChildRecords(film: string, current: Option<Date>, child: Child): (r: seq<Screening>)
    requires current.Some? ==> ValidDate(current.value)
    ensures |r| <= 1
  {
    match child
    case Performance(Some(text)) =>
      if current.None? then []
      else
        (match ParsePccTime(Strip(text))
         case None => []
         case Some(time) => [Screening(Venue, film, IsoFormat(current.value), time)])
    case _ => []
  }

  /** The records of a film whose performance list holds the children cs, in order. */
  function FilmRecords(film: string, cs: seq<Child>, currentYear: nat, today: Date): seq<Screening>
    requires ValidDate(today)
  {
    if cs == [] then []
    else
      var before := cs[..|cs| - 1];
      FilmRecords(film, before, currentYear, today)
      + ChildRecords(film, DateAfter(before, currentYear, today), cs[|cs| - 1])
  }

  function ContainerRecords(c: FilmContainer, currentYear: nat, today: Date): (r: seq<Screening>)
    requires ValidDate(today)
    ensures IsSkipped(c) ==> r == []
  {
    if IsSkipped(c) then [] else FilmRecords(FilmTitle(c), c.performanceList.value, currentYear, today)
  }

  /** The records of the whole page: each container's records, in page order. */
  function DocRecords(containers: seq<FilmContainer>, currentYear: nat, today: Date): seq<Screening>
    requires ValidDate(today)
  {
    if containers == [] then []
    else
      DocRecords(containers[..|containers| - 1], currentYear, today)
      + ContainerRecords(containers[|containers| - 1], currentYear, today)
  }

  function ProcessedCount(containers: seq<FilmContainer>): (n: nat)
    ensures n <= |containers|
  {
    if containers == [] then 0
    else ProcessedCount(containers[..|containers| - 1]) + (if IsSkipped(containers[|containers| - 1]) then 0 else 1)
  }

  function SkippedCount(containers: seq<FilmContainer>): (n: nat)
    ensures n <= |containers|
  {
    if containers == [] then 0
    else SkippedCount(containers[..|containers| - 1]) + (if IsSkipped(containers[|containers| - 1]) then 1 else 0)
  }

  // ---------------------------------------------------------------------
  // The loop
  // ---------------------------------------------------------------------

  /** One more container: the records and the counters as the loop updates them. */
  lemma ContainerStep(containers: seq<FilmContainer>, i: nat, currentYear: nat, today: Date)
    requires ValidDate(today) && i < |containers|
    ensures DocRecords(containers[..i + 1], currentYear, today) ==
      DocRecords(containers[..i], currentYear, today) + ContainerRecords(containers[i], currentYear, today)
    ensures ProcessedCount(containers[..i + 1]) == ProcessedCount(containers[..i]) + (if IsSkipped(containers[i]) then 0 else 1)
    ensures SkippedCount(containers[..i + 1]) == SkippedCount(containers[..i]) + (if IsSkipped(containers[i]) then 1 else 0)
  {
    Seqs.PrefixSnoc(containers, i);
    DocRecordsSnoc(containers[..i], containers[i], currentYear, today);
    CountsSnoc(containers[..i], containers[i]);
  }

  lemma FilmSnoc(film: string, cs: seq<Child>, c: Child, currentYear: nat, today: Date)
    requires ValidDate(today)
    ensures DateAfter(cs + [c], currentYear, today) ==
      if c.Heading? then ParsePccDate(Strip(c.text), currentYear, today)
      else DateAfter(cs, currentYear, today)
    ensures FilmRecords(film, cs + [c], currentYear, today) ==
      FilmRecords(film, cs, currentYear, today) + ChildRecords(film, DateAfter(cs, currentYear, today), c)
  {
    Seqs.DropSnoc(cs, c);
  }

  /** One more child: the date in force and the records as the loop updates them. */
  lemma FilmStep(film: string, cs: seq<Child>, j: nat, currentYear: nat, today: Date)
    requires ValidDate(today) && j < |cs|
    ensures DateAfter(cs[..j + 1], currentYear, today) ==
      if cs[j].Heading? then ParsePccDate(Strip(cs[j].text), currentYear, today)
      else DateAfter(cs[..j], currentYear, today)
    ensures FilmRecords(film, cs[..j + 1], currentYear, today) ==
      FilmRecords(film, cs[..j], currentYear, today) + ChildRecords(film, DateAfter(cs[..j], currentYear, today), cs[j])
  {
    Seqs.PrefixSnoc(cs, j);
    FilmSnoc(film, cs[..j], cs[j], currentYear, today);
  }

  /**
   * The inner loop of scrape_pcc over one film's performance list: the
   * records it appends for that film, in order.
   */
  method ScrapeFilm(filmTitle: string, children: seq<Child>, currentYear: nat, today: Date)
    returns (found: seq<Screening>)
    requires ValidDate(today)
    ensures found == FilmRecords(filmTitle, children, currentYear, today)
  {
    found := [];
    var currentDate: Option<Date> := None;
    for j := 0 to |children|
      invariant currentDate == DateAfter(children[..j], currentYear, today)
      invariant found == FilmRecords(filmTitle, children[..j], currentYear, today)
    {
      FilmStep(filmTitle, children, j, currentYear, today);
      match children[j]
      case Heading(text) =>
        currentDate := ParsePccDate(Strip(text), currentYear, today);
      case Performance(timeSpan) =>
        if currentDate.Some? && timeSpan.Some? {
          var parsedTime := ParsePccTime(Strip(timeSpan.value));
          if parsedTime.Some? {
            found := found + [Screening(Venue, filmTitle, IsoFormat(currentDate.value), parsedTime.value)];
          }
        }
      case Ignored =>
    }
    Seqs.WholePrefix(children);
  }

  /**
   * The container loop of scrape_pcc, with its processed and skipped
   * counters. An empty container list returns at once, as the source does.
   */
  method ScrapeContainers(containers: seq<FilmContainer>, currentYear: nat, today: Date)
    returns (screenings: seq<Screening>, processedCount: nat, skippedCount: nat)
    requires ValidDate(today)
    ensures screenings == DocRecords(containers, currentYear, today)
    ensures processedCount == ProcessedCount(containers)
    ensures skippedCount == SkippedCount(containers)
  {
    screenings := [];
    if |containers| == 0 {
      return screenings, 0, 0;
    }
    processedCount, skippedCount := 0, 0;
    for i := 0 to |containers|
      invariant screenings == DocRecords(containers[..i], currentYear, today)
      invariant processedCount == ProcessedCount(containers[..i])
      invariant skippedCount == SkippedCount(containers[..i])
    {
      ContainerStep(containers, i, currentYear, today);
      var container := containers[i];
      var filmTitle := FilmTitle(container);
      if filmTitle == [] {
        skippedCount := skippedCount + 1;
        continue;
      }
      if container.performanceList.None? {
        skippedCount := skippedCount + 1;
        continue;
      }
      processedCount := processedCount + 1;
      var found := ScrapeFilm(filmTitle, container.performanceList.value, currentYear, today);
      screenings := screenings + found;
    }
    Seqs.WholePrefix(containers);
  }

  // ---------------------------------------------------------------------
  // What the loop promises
  // ---------------------------------------------------------------------

  /** The child yields the record s under the date in force: a performance whose time reads as s.time. */
  predicate Yields(film: string, current: Option<Date>, child: Child, s: Screening)
    requires current.Some? ==> ValidDate(current.value)
  {
    child.Performance? && child.timeSpan.Some? && current.Some?
    && ParsePccTime(Strip(child.timeSpan.value)) == Some(s.time)
    && s == Screening(Venue, film, IsoFormat(current.value), s.time)
  }

  /** A child contributes a record exactly when it is a performance with a readable time under a date in force. */
  lemma ChildRecordsMembers(film: string, current: Option<Date>, child: Child, s: Screening)
    requires current.Some? ==> ValidDate(current.value)
    ensures s in ChildRecords(film, current, child) <==> Yields(film, current, child, s)
  {
  }

  predicate HeadingFree(cs: seq<Child>) {
    forall i | 0 <= i < |cs| :: !cs[i].Heading?
  }

  /** The date in force is what the last heading parsed to, whatever came before it. */
  lemma {:induction false} DateAfterLastHeading(cs: seq<Child>, k: nat, currentYear: nat, today: Date)
    requires ValidDate(today) && k < |cs| && cs[k].Heading? && HeadingFree(cs[k + 1..])
    ensures DateAfter(cs, currentYear, today) == ParsePccDate(Strip(cs[k].text), currentYear, today)
  {
    var n := |cs|;
    if k == n - 1 {
      assert DateAfter(cs, currentYear, today) == ParsePccDate(Strip(cs[n - 1].text), currentYear, today);
    } else {
      assert cs[n - 1] == cs[k + 1..][n - 2 - k];
      assert DateAfter(cs, currentYear, today) == DateAfter(cs[..n - 1], currentYear, today);
      assert cs[..n - 1][k + 1..] == cs[k + 1..][..n - 2 - k];
      DateAfterLastHeading(cs[..n - 1], k, currentYear, today);
    }
  }

  /** Before any heading there is no date in force. */
  lemma {:induction false} DateAfterNoHeading(cs: seq<Child>, currentYear: nat, today: Date)
    requires ValidDate(today) && HeadingFree(cs)
    ensures DateAfter(cs, currentYear, today) == None
  {
    if cs != [] {
      assert !cs[|cs| - 1].Heading?;
      DateAfterNoHeading(cs[..|cs| - 1], currentYear, today);
    }
  }

  /** Child j of cs yields the record s under the date in force after the children before it. */
  predicate RecordOf(film: string, cs: seq<Child>, j: int, s: Screening, currentYear: nat, today: Date)
    requires ValidDate(today) && 0 <= j < |cs|
  {
    Yields(film, DateAfter(cs[..j], currentYear, today), cs[j], s)
  }

  /** The film's records are exactly the records of its performance items, and nothing else. */
  lemma FilmRecordsMembers(film: string, cs: seq<Child>, s: Screening, currentYear: nat, today: Date)
    requires ValidDate(today)
    ensures s in FilmRecords(film, cs, currentYear, today) <==>
      exists j | 0 <= j < |cs| :: RecordOf(film, cs, j, s, currentYear, today)
  {
    forall j | 0 <= j < |cs|
      ensures RecordOf(film, cs, j, s, currentYear, today) <==> s in ChildAfter(film, cs[..j], cs[j], currentYear, today)
    {
      ChildRecordsMembers(film, DateAfter(cs[..j], currentYear, today), cs[j], s);
    }
    if s in FilmRecords(film, cs, currentYear, today) {
      RecordComesFromChild(film, cs, s, currentYear, today);
    }
    if exists j | 0 <= j < |cs| :: RecordOf(film, cs, j, s, currentYear, today) {
      var j :| 0 <= j < |cs| && RecordOf(film, cs, j, s, currentYear, today);
      ChildRecordIsKept(film, cs, j, s, currentYear, today);
    }
  }

  /** The records a child adds after the children before it. */
  function ChildAfter(film: string, before: seq<Child>, child: Child, currentYear: nat, today: Date): (r: seq<Screening>)
    requires ValidDate(today)
    ensures |r| <= 1
  {
    ChildRecords(film, DateAfter(before, currentYear, today), child)
  }

  /** Every record of a film comes from one of its children. */
  lemma {:induction false} RecordComesFromChild(film: string, cs: seq<Child>, s: Screening, currentYear: nat, today: Date)
    requires ValidDate(today) && s in FilmRecords(film, cs, currentYear, today)
    ensures exists j | 0 <= j < |cs| :: s in ChildAfter(film, cs[..j], cs[j], currentYear, today)
  {
    var n := |cs|;
    var before := cs[..n - 1];
    FilmRecordsLast(film, cs, n - 1, currentYear, today);
    Seqs.InAppend(FilmRecords(film, before, currentYear, today), ChildAfter(film, before, cs[n - 1], currentYear, today), s);
    if s in FilmRecords(film, before, currentYear, today) {
      RecordComesFromChild(film, before, s, currentYear, today);
      var j :| 0 <= j < n - 1 && s in ChildAfter(film, before[..j], before[j], currentYear, today);
      Seqs.PrefixOfPrefix(cs, n - 1, j);
    }
  }

  /** Every record a child adds is one of the film's records. */
  lemma ChildRecordIsKept(film: string, cs: seq<Child>, j: nat, s: Screening, currentYear: nat, today: Date)
    requires ValidDate(today) && j < |cs| && s in ChildAfter(film, cs[..j], cs[j], currentYear, today)
    ensures s in FilmRecords(film, cs, currentYear, today)
  {
    var p := cs[..j + 1];
    Seqs.PrefixOfPrefix(cs, j + 1, j);
    FilmRecordsLast(film, p, j, currentYear, today);
    Seqs.InAppend(FilmRecords(film, cs[..j], currentYear, today), ChildAfter(film, cs[..j], cs[j], currentYear, today), s);
    FilmRecordsPrefix(film, cs, j + 1, currentYear, today);
    Seqs.InPrefix(FilmRecords(film, p, currentYear, today), FilmRecords(film, cs, currentYear, today), s);
  }

  /** The records of the first k children are an initial part of the film's records. */
  lemma {:induction false} FilmRecordsPrefix(film: string, cs: seq<Child>, k: nat, currentYear: nat, today: Date)
    requires ValidDate(today) && k <= |cs|
    ensures FilmRecords(film, cs[..k], currentYear, today) <= FilmRecords(film, cs, currentYear, today)
    decreases |cs| - k
  {
    if k == |cs| {
      Seqs.WholePrefix(cs);
    } else {
      FilmRecordsPrefix(film, cs, k + 1, currentYear, today);
      FilmStep(film, cs, k, currentYear, today);
      Seqs.PrefixChain(FilmRecords(film, cs[..k], currentYear, today),
                       ChildRecords(film, DateAfter(cs[..k], currentYear, today), cs[k]),
                       FilmRecords(film, cs[..k + 1], currentYear, today), FilmRecords(film, cs, currentYear, today));
    }
  }

  /** The records of a film: those of all but its last child, then what the last child adds. */
  lemma FilmRecordsLast(film: string, cs: seq<Child>, k: nat, currentYear: nat, today: Date)
    requires ValidDate(today) && k == |cs| - 1
    ensures FilmRecords(film, cs, currentYear, today) ==
      FilmRecords(film, cs[..k], currentYear, today) + ChildAfter(film, cs[..k], cs[k], currentYear, today)
  {
  }

  /** Performance items before the first heading are dropped: with no heading there are no records. */
  lemma {:induction false} NoHeadingNoRecords(film: string, cs: seq<Child>, currentYear: nat, today: Date)
    requires ValidDate(today) && HeadingFree(cs)
    ensures FilmRecords(film, cs, currentYear, today) == []
  {
    if cs != [] {
      var before := cs[..|cs| - 1];
      NoHeadingNoRecords(film, before, currentYear, today);
      DateAfterNoHeading(before, currentYear, today);
    }
  }

  /** With no date in force and no heading to set one, further children add nothing. */
  lemma {:induction false} NoDateNoRecords(film: string, cs: seq<Child>, post: seq<Child>, currentYear: nat, today: Date)
    requires ValidDate(today) && DateAfter(cs, currentYear, today) == None && HeadingFree(post)
    ensures DateAfter(cs + post, currentYear, today) == None
    ensures FilmRecords(film, cs + post, currentYear, today) == FilmRecords(film, cs, currentYear, today)
    decreases |post|
  {
    if post == [] {
      Seqs.EmptyNeutral(cs);
    } else {
      var shorter, last := post[..|post| - 1], post[|post| - 1];
      Seqs.SplitLast(cs, post);
      NoDateNoRecords(film, cs, shorter, currentYear, today);
      NoDateStep(film, cs + shorter, last, currentYear, today);
    }
  }

  /** With no date in force, a child that is not a heading keeps it so and adds nothing. */
  lemma NoDateStep(film: string, cs: seq<Child>, c: Child, currentYear: nat, today: Date)
    requires ValidDate(today) && DateAfter(cs, currentYear, today) == None && !c.Heading?
    ensures DateAfter(cs + [c], currentYear, today) == None
    ensures FilmRecords(film, cs + [c], currentYear, today) == FilmRecords(film, cs, currentYear, today)
  {
    FilmSnoc(film, cs, c, currentYear, today);
    Seqs.EmptyNeutral(FilmRecords(film, cs, currentYear, today));
  }

  /**
   * A heading that fails to parse clears the date in force: the items after
   * it, up to the next heading, add nothing, even when an earlier heading
   * had set a date.
   */
  lemma FailedHeadingDropsFollowing(film: string, pre: seq<Child>, text: string, post: seq<Child>, currentYear: nat, today: Date)
    requires ValidDate(today) && HeadingFree(post)
    requires ParsePccDate(Strip(text), currentYear, today) == None
    ensures FilmRecords(film, pre + [Heading(text)] + post, currentYear, today) == FilmRecords(film, pre, currentYear, today)
  {
    FilmSnoc(film, pre, Heading(text), currentYear, today);
    Seqs.EmptyNeutral(FilmRecords(film, pre, currentYear, today));
    NoDateNoRecords(film, pre + [Heading(text)], post, currentYear, today);
  }

  /** The times parse_pcc_time reads from the performance items of cs that have a time span, in order. */
  function ReadableTimes(cs: seq<Child>): (ts: seq<string>)
    ensures |ts| <= |cs|
  {
    if cs == [] then []
    else ReadableTimes(cs[..|cs| - 1]) + ReadableTime(cs[|cs| - 1])
  }

  /** The time a single child contributes to ReadableTimes: none, or the one its time span reads as. */
  function ReadableTime(c: Child): (ts: seq<string>)
    ensures |ts| <= 1
  {
    if c.Performance? && c.timeSpan.Some? && ParsePccTime(Strip(c.timeSpan.value)).Some?
    then [ParsePccTime(Strip(c.timeSpan.value)).value]
    else []
  }

  /** One record per time, all of this film on this date, in the order of the times. */
  function Stamped(film: string, date: string, ts: seq<string>): (r: seq<Screening>)
    ensures |r| == |ts|
    ensures forall i | 0 <= i < |ts| :: r[i] == Screening(Venue, film, date, ts[i])
  {
    if ts == [] then [] else Stamped(film, date, ts[..|ts| - 1]) + [Screening(Venue, film, date, ts[|ts| - 1])]
  }

  /**
   * A heading that parses to d dates everything up to the next heading: the
   * records of the heading-free run that follows it are the run's readable
   * times, in order, each on date d, and d stays in force to the run's end.
   */
  lemma {:induction false} HeadingDatesRun(film: string, pre: seq<Child>, heading: string, post: seq<Child>,
                                           currentYear: nat, today: Date, d: Date)
    requires ValidDate(today) && ParsePccDate(Strip(heading), currentYear, today) == Some(d) && HeadingFree(post)
    ensures DateAfter(pre + [Heading(heading)] + post, currentYear, today) == Some(d)
    ensures FilmRecords(film, pre + [Heading(heading)] + post, currentYear, today) ==
      FilmRecords(film, pre, currentYear, today) + Stamped(film, IsoFormat(d), ReadableTimes(post))
    decreases |post|
  {
    var cs := pre + [Heading(heading)];
    AppendHeading(film, pre, heading, currentYear, today, d);
    if post == [] {
      Seqs.EmptyNeutral(cs);
      Seqs.EmptyNeutral(FilmRecords(film, pre, currentYear, today));
    } else {
      var front, last := post[..|post| - 1], post[|post| - 1];
      Seqs.SplitLast(cs, post);
      HeadingFreePrefix(post);
      HeadingDatesRun(film, pre, heading, front, currentYear, today, d);
      FilmSnoc(film, cs + front, last, currentYear, today);
      RunStep(film, d, front, last);
      Seqs.Assoc(FilmRecords(film, pre, currentYear, today), Stamped(film, IsoFormat(d), ReadableTimes(front)),
                 ChildRecords(film, Some(d), last));
    }
  }

  lemma HeadingFreePrefix(cs: seq<Child>)
    requires cs != [] && HeadingFree(cs)
    ensures HeadingFree(cs[..|cs| - 1]) && !cs[|cs| - 1].Heading?
  {
    assert forall i | 0 <= i < |cs| - 1 :: cs[..|cs| - 1][i] == cs[i];
  }

  /** Under the date d, one more child adds to the records what it adds to the times. */
  lemma RunStep(film: string, d: Date, front: seq<Child>, last: Child)
    requires ValidDate(d)
    ensures Stamped(film, IsoFormat(d), ReadableTimes(front + [last])) ==
      Stamped(film, IsoFormat(d), ReadableTimes(front)) + ChildRecords(film, Some(d), last)
  {
    Seqs.DropSnoc(front, last);
    assert ReadableTimes(front + [last]) == ReadableTimes(front) + ReadableTime(last);
    ChildRecordsUnderDate(film, d, last);
    StampedAppendOne(film, IsoFormat(d), ReadableTimes(front), ReadableTime(last));
  }

  /** Under a date in force, a child's records are its readable time, stamped with that date. */
  lemma ChildRecordsUnderDate(film: string, d: Date, c: Child)
    requires ValidDate(d)
    ensures ChildRecords(film, Some(d), c) == Stamped(film, IsoFormat(d), ReadableTime(c))
  {
    if ReadableTime(c) != [] {
      var t := ReadableTime(c)[0];
      assert ReadableTime(c) == [t];
      assert Stamped(film, IsoFormat(d), [t]) == [Screening(Venue, film, IsoFormat(d), t)];
    }
  }

  lemma StampedAppendOne(film: string, date: string, ts: seq<string>, rt: seq<string>)
    requires |rt| <= 1
    ensures Stamped(film, date, ts + rt) == Stamped(film, date, ts) + Stamped(film, date, rt)
  {
    if rt == [] {
      Seqs.EmptyNeutral(ts);
      Seqs.EmptyNeutral(Stamped(film, date, ts));
    } else {
      Seqs.DropSnoc(ts, rt[0]);
      assert rt == [rt[0]];
    }
  }

  function PerformanceCount(cs: seq<Child>): nat {
    if cs == [] then 0 else PerformanceCount(cs[..|cs| - 1]) + (if cs[|cs| - 1].Performance? then 1 else 0)
  }

  /** At most one record per performance item. */
  lemma {:induction false} FilmRecordsBound(film: string, cs: seq<Child>, currentYear: nat, today: Date)
    requires ValidDate(today)
    ensures |FilmRecords(film, cs, currentYear, today)| <= PerformanceCount(cs)
  {
    if cs != [] {
      FilmRecordsBound(film, cs[..|cs| - 1], currentYear, today);
    }
  }

  /** What every emitted record holds: the venue, a non-empty stripped title, an ISO date and a 24-hour time. */
  predicate WellFormed(s: Screening) {
    s.venue == Venue && s.film != [] && Trimmed(s.film) && IsIsoDate(s.date) && IsClockText(s.time)
  }

  lemma {:induction false} FilmRecordsWellFormed(film: string, cs: seq<Child>, currentYear: nat, today: Date)
    requires ValidDate(today) && film != [] && Trimmed(film)
    ensures forall s | s in FilmRecords(film, cs, currentYear, today) :: WellFormed(s)
  {
    if cs != [] {
      var before := cs[..|cs| - 1];
      FilmRecordsWellFormed(film, before, currentYear, today);
      var current := DateAfter(before, currentYear, today);
      if current.Some? {
        IsoRoundTrip(current.value);
      }
      forall s | s in ChildRecords(film, current, cs[|cs| - 1])
        ensures WellFormed(s)
      {
        ChildRecordsMembers(film, current, cs[|cs| - 1], s);
      }
    }
  }

  lemma {:induction false} DocRecordsWellFormed(containers: seq<FilmContainer>, currentYear: nat, today: Date)
    requires ValidDate(today)
    ensures forall s | s in DocRecords(containers, currentYear, today) :: WellFormed(s)
  {
    if containers != [] {
      var c := containers[|containers| - 1];
      DocRecordsWellFormed(containers[..|containers| - 1], currentYear, today);
      if !IsSkipped(c) {
        FilmRecordsWellFormed(FilmTitle(c), c.performanceList.value, currentYear, today);
      }
    }
  }

  lemma DocRecordsSnoc(containers: seq<FilmContainer>, c: FilmContainer, currentYear: nat, today: Date)
    requires ValidDate(today)
    ensures DocRecords(containers + [c], currentYear, today) ==
      DocRecords(containers, currentYear, today) + ContainerRecords(c, currentYear, today)
  {
    Seqs.DropSnoc(containers, c);
  }

  lemma CountsSnoc(containers: seq<FilmContainer>, c: FilmContainer)
    ensures ProcessedCount(containers + [c]) == ProcessedCount(containers) + (if IsSkipped(c) then 0 else 1)
    ensures SkippedCount(containers + [c]) == SkippedCount(containers) + (if IsSkipped(c) then 1 else 0)
  {
    Seqs.DropSnoc(containers, c);
  }

  /** Containers are independent: the records of a page are those of its parts, in order. */
  lemma {:induction false} DocRecordsAppend(a: seq<FilmContainer>, b: seq<FilmContainer>, currentYear: nat, today: Date)
    requires ValidDate(today)
    ensures DocRecords(a + b, currentYear, today) == DocRecords(a, currentYear, today) + DocRecords(b, currentYear, today)
    decreases |b|
  {
    if b == [] {
      Seqs.EmptyNeutral(a);
      Seqs.EmptyNeutral(DocRecords(a, currentYear, today));
    } else {
      var front, last := b[..|b| - 1], b[|b| - 1];
      Seqs.SplitLast(a, b);
      DocRecordsAppend(a, front, currentYear, today);
      DocRecordsAppendStep(a, front, last, currentYear, today);
    }
  }

  lemma DocRecordsAppendStep(a: seq<FilmContainer>, front: seq<FilmContainer>, last: FilmContainer, currentYear: nat, today: Date)
    requires ValidDate(today)
    requires DocRecords(a + front, currentYear, today) == DocRecords(a, currentYear, today) + DocRecords(front, currentYear, today)
    ensures DocRecords((a + front) + [last], currentYear, today) ==
      DocRecords(a, currentYear, today) + DocRecords(front + [last], currentYear, today)
  {
    DocRecordsSnoc(a + front, last, currentYear, today);
    DocRecordsSnoc(front, last, currentYear, today);
    Seqs.Assoc(DocRecords(a, currentYear, today), DocRecords(front, currentYear, today), ContainerRecords(last, currentYear, today));
  }

  /** A skipped container, wherever it stands, changes nothing in the output. */
  lemma SkippedContributesNothing(a: seq<FilmContainer>, c: FilmContainer, b: seq<FilmContainer>, currentYear: nat, today: Date)
    requires ValidDate(today) && IsSkipped(c)
    ensures DocRecords(a + [c] + b, currentYear, today) == DocRecords(a + b, currentYear, today)
  {
    DocRecordsAppend(a + [c], b, currentYear, today);
    DocRecordsSnoc(a, c, currentYear, today);
    DocRecordsAppend(a, b, currentYear, today);
    Seqs.EmptyNeutral(DocRecords(a, currentYear, today));
  }

  /** Every container is counted once, as processed or as skipped. */
  lemma {:induction false} CountsPartition(containers: seq<FilmContainer>)
    ensures ProcessedCount(containers) + SkippedCount(containers) == |containers|
  {
    if containers != [] {
      CountsPartition(containers[..|containers| - 1]);
    }
  }

  // ---------------------------------------------------------------------
  // The documented page
  // ---------------------------------------------------------------------

  /** str(date(2025, 4, 3)). */
  lemma AprilThirdIso()
    ensures ValidDate(Date(2025, 4, 3)) && IsoFormat(Date(2025, 4, 3)) == "2025-04-03"
  {
    assert Pad4(2025) == "2025" && Pad2(4) == "04" && Pad2(3) == "03";
    assert "2025" + "-" + "04" + "-" + "03" == "2025-04-03";
  }

  /** A heading that parses sets the date in force and adds no record. */
  lemma AppendHeading(film: string, cs: seq<Child>, heading: string, currentYear: nat, today: Date, d: Date)
    requires ValidDate(today) && ParsePccDate(Strip(heading), currentYear, today) == Some(d)
    ensures DateAfter(cs + [Heading(heading)], currentYear, today) == Some(d)
    ensures FilmRecords(film, cs + [Heading(heading)], currentYear, today) == FilmRecords(film, cs, currentYear, today)
  {
    FilmSnoc(film, cs, Heading(heading), currentYear, today);
    Seqs.EmptyNeutral(FilmRecords(film, cs, currentYear, today));
  }

  /** A performance with a readable time under a date in force adds exactly its record and keeps the date. */
  lemma AppendPerformance(film: string, cs: seq<Child>, text: string, currentYear: nat, today: Date, d: Date, time: string)
    requires ValidDate(today) && DateAfter(cs, currentYear, today) == Some(d)
    requires ParsePccTime(Strip(text)) == Some(time)
    ensures DateAfter(cs + [Performance(Some(text))], currentYear, today) == Some(d)
    ensures FilmRecords(film, cs + [Performance(Some(text))], currentYear, today) ==
      FilmRecords(film, cs, currentYear, today) + [Screening(Venue, film, IsoFormat(d), time)]
  {
    FilmSnoc(film, cs, Performance(Some(text)), currentYear, today);
  }

  /** A list of one heading and two performance items that all parse yields two records on the heading's date. */
  lemma HeadingAndTwoTimes(film: string, heading: string, early: string, late: string, currentYear: nat, today: Date,
                           d: Date, earlyTime: string, lateTime: string)
    requires ValidDate(today)
    requires ParsePccDate(Strip(heading), currentYear, today) == Some(d)
    requires ParsePccTime(Strip(early)) == Some(earlyTime) && ParsePccTime(Strip(late)) == Some(lateTime)
    ensures ValidDate(d)
    ensures FilmRecords(film, [Heading(heading), Performance(Some(early)), Performance(Some(late))], currentYear, today) ==
      [Screening(Venue, film, IsoFormat(d), earlyTime), Screening(Venue, film, IsoFormat(d), lateTime)]
  {
    var none: seq<Child> := [];
    var c1 := none + [Heading(heading)];
    var c2 := c1 + [Performance(Some(early))];
    var c3 := c2 + [Performance(Some(late))];
    AppendHeading(film, none, heading, currentYear, today, d);
    AppendPerformance(film, c1, early, currentYear, today, d, earlyTime);
    AppendPerformance(film, c2, late, currentYear, today, d, lateTime);
    Seqs.ThreeSnocs(Heading(heading), Performance(Some(early)), Performance(Some(late)));
    assert FilmRecords(film, none, currentYear, today) == [];
    Seqs.TwoSnocs(Screening(Venue, film, IsoFormat(d), earlyTime), Screening(Venue, film, IsoFormat(d), lateTime));
  }

  /** A page of two containers, the second of them skipped. */
  lemma PageWithSkippedSecond(a: FilmContainer, b: FilmContainer, currentYear: nat, today: Date)
    requires ValidDate(today) && !IsSkipped(a) && IsSkipped(b)
    ensures DocRecords([a, b], currentYear, today) == ContainerRecords(a, currentYear, today)
    ensures ProcessedCount([a, b]) == 1 && SkippedCount([a, b]) == 1
  {
    var none: seq<FilmContainer> := [];
    DocRecordsSnoc(none, a, currentYear, today);
    DocRecordsSnoc([a], b, currentYear, today);
    CountsSnoc(none, a);
    CountsSnoc([a], b);
    Seqs.TwoSnocs(a, b);
    var ra := ContainerRecords(a, currentYear, today);
    Seqs.EmptyNeutral(ra);
  }

  lemma FilmAHeading(heading: string, today: Date)
    requires heading == "Thursday 3rd April" && today == Date(2025, 3, 1)
    ensures ParsePccDate(Strip(heading), 2025, today) == Some(Date(2025, 4, 3))
  {
    StripTrimmed(heading);
    HeadingAheadKeepsCurrentYear(today);
  }

  lemma FilmAEarlyTime(early: string)
    requires early == "12:00 pm"
    ensures ParsePccTime(Strip(early)) == Some("12:00")
  {
    StripTrimmed(early);
    Noon(early);
  }

  lemma FilmALateTime(late: string)
    requires late == "3:30 pm"
    ensures ParsePccTime(Strip(late)) == Some("15:30")
  {
    StripTrimmed(late);
    HalfPastThree(late);
  }

  /**
   * A page with two film containers: "Film A" with the heading "Thursday 3rd
   * April" followed by the times "12:00 pm" and "3:30 pm", and a second film
   * without a performance list. Seen on 1 March 2025 it yields two records
   * for "Film A" on the same date, one processed film and one skipped.
   */
  lemma TwoFilmPage(containers: seq<FilmContainer>, today: Date)
    requires today == Date(2025, 3, 1)
    requires containers == [
      FilmContainer(Some("Film A"), Some([Heading("Thursday 3rd April"), Performance(Some("12:00 pm")), Performance(Some("3:30 pm"))])),
      FilmContainer(Some("Film B"), None)]
    ensures DocRecords(containers, 2025, today) == [
      Screening(Venue, "Film A", "2025-04-03", "12:00"),
      Screening(Venue, "Film A", "2025-04-03", "15:30")]
    ensures ProcessedCount(containers) == 1 && SkippedCount(containers) == 1
  {
    var a, b := containers[0], containers[1];
    var title := a.titleAnchor.value;
    var list := a.performanceList.value;
    var heading, early, late := list[0].text, list[1].timeSpan.value, list[2].timeSpan.value;
    StripTrimmed(title);
    assert FilmTitle(a) == title && title != [];
    assert list == [Heading(heading), Performance(Some(early)), Performance(Some(late))];
    FilmAHeading(heading, today);
    FilmAEarlyTime(early);
    FilmALateTime(late);
    AprilThirdIso();
    HeadingAndTwoTimes(title, heading, early, late, 2025, today, Date(2025, 4, 3), "12:00", "15:30");
    PageWithSkippedSecond(a, b, 2025, today);
    assert containers == [a, b];
  }

  // ---------------------------------------------------------------------
  // The fetch around the loop, and the error path
  // ---------------------------------------------------------------------

  /** What the fetch produced: a transport failure, or a page and the film containers found in it. */
  datatype Fetch = NetworkError | Page(containers: seq<FilmContainer>)

  /** How a call of scrape_pcc ends: it returns the list, or an exception escapes it. */
  datatype Outcome = Returned(screenings: seq<Screening>) | Raised

  /**
   * The closing summary log reads both counters; a local that was never
   * assigned makes that read raise. None stands for "not yet assigned".
   */
  function FinishWithSummary(processed: Option<nat>, skipped: Option<nat>, screenings: seq<Screening>): (o: Outcome)
    ensures o.Returned? <==> processed.Some? && skipped.Some?
    ensures o.Returned? ==> o.screenings == screenings
  {
    if processed.None? || skipped.None? then Raised else Returned(screenings)
  }

  /**
   * scrape_pcc as written: on a network error the handler logs and control
   * reaches the summary log with the counters never assigned (they are
   * first assigned after the fetch succeeds).
   */
  function ScrapeAsWritten(fetch: Fetch, currentYear: nat, today: Date): (o: Outcome)
    requires ValidDate(today)
    ensures o.Raised? <==> fetch.NetworkError?
    ensures fetch.Page? ==> o == Returned(DocRecords(fetch.containers, currentYear, today))
  {
    match fetch
    case NetworkError => FinishWithSummary(None, None, [])
    case Page(containers) =>
      if containers == [] then Returned([])
      else
        FinishWithSummary(Some(ProcessedCount(containers)), Some(SkippedCount(containers)),
                          DocRecords(containers, currentYear, today))
  }

  /** A network error makes scrape_pcc raise instead of returning an empty list. */
  lemma NetworkErrorRaisesAsWritten(currentYear: nat, today: Date)
    requires ValidDate(today)
    ensures ScrapeAsWritten(NetworkError, currentYear, today) == Raised
  {
  }

  /**
   * scrape_pcc with the counters bound before the fetch: a network error
   * yields the empty list, and on every other path the result is the one
   * the source already returns.
   */
  method ScrapePcc(fetch: Fetch, currentYear: nat, today: Date) returns (screenings: seq<Screening>)
    requires ValidDate(today)
    ensures fetch.NetworkError? ==> screenings == []
    ensures fetch.Page? ==> screenings == DocRecords(fetch.containers, currentYear, today)
    ensures ScrapeAsWritten(fetch, currentYear, today).Returned? ==>
      screenings == ScrapeAsWritten(fetch, currentYear, today).screenings
  {
    match fetch
    case NetworkError =>
      screenings := [];
    case Page(containers) =>
      var processed, skipped;
      screenings, processed, skipped := ScrapeContainers(containers, currentYear, today);
  }
}
