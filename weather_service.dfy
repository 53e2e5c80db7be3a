/** `WeatherService`: the outcome of `get_forecast` and the daily aggregation of
    the provider's 3-hourly samples (`parse_extended_forecast`). The two HTTP
    requests are not part of this model; their answers are inputs. Temperatures
    are integers, so `.round` is the identity, and a sample's date is an opaque
    integer key (the `Date.parse` of its `dt_txt`). */
module WeatherService {
  import opened Common
  import Text

  /** One entry of the forecast response's `list`. */
  datatype Sample = Sample(date: int, temp: int, description: string, icon: string)

  /** One entry of the hash `group_by` builds: a date and its samples in input order. */
  datatype Group = Group(date: int, members: seq<Sample>)

  /** One day of the extended forecast. */
  datatype DailyForecast = DailyForecast(date: int, highTemp: int, lowTemp: int, description: string, icon: string)

  /** The current-weather response: transport success, then the fields read from
      it (`main.temp`, `main.temp_max`, `main.temp_min`, `weather.first.description`),
      each None when missing. */
  datatype CurrentResponse = CurrentResponse(
    success: bool, temp: Option<int>, tempMax: Option<int>, tempMin: Option<int>, description: Option<string>)

  /** The forecast response: transport success and its `list`, None when missing. */
  datatype ForecastResponse = ForecastResponse(success: bool, list: Option<seq<Sample>>)

  /** What `get_forecast` returns, as the controller reads it. The service itself
      never sets `humidity` or `windSpeed`; a caller substituted for it may. */
  datatype WeatherData = WeatherData(
    temperature: int, highTemp: int, lowTemp: int, description: string,
    humidity: Option<string>, windSpeed: Option<string>,
    extendedForecast: Option<seq<DailyForecast>>)

  const MaxDays := 5
  const FetchFailure := "Unable to fetch weather data"

  // ---------------------------------------------------------------------------
  // Reference notions over the input list

  /** The dates of the input list, in order. */
  function SampleDates(samples: seq<Sample>): (ds: seq<int>)
    ensures |ds| == |samples| && forall i :: 0 <= i < |samples| ==> ds[i] == samples[i].date
  {
    seq(|samples|, i requires 0 <= i < |samples| => samples[i].date)
  }

  /** Index of the first sample dated `d`, or |samples| when there is none. */
  function FirstIndex(samples: seq<Sample>, d: int): (k: nat)
    ensures k <= |samples|
    ensures k < |samples| ==> samples[k].date == d
    ensures forall j :: 0 <= j < k ==> samples[j].date != d
  {
    IndexOf(SampleDates(samples), d)
  }

  /** The dates of a list of groups, in order. */
  function DatesOf(gs: seq<Group>): (ds: seq<int>)
    ensures |ds| == |gs| && forall i :: 0 <= i < |gs| ==> ds[i] == gs[i].date
  {
    seq(|gs|, i requires 0 <= i < |gs| => gs[i].date)
  }

  // ---------------------------------------------------------------------------
  // group_by, map, first(5)

  /** Hash lookup by date: the index of the group keyed `d`, or |gs|. */
  function IndexOfGroup(gs: seq<Group>, d: int): (k: nat)
    ensures k <= |gs|
    ensures k < |gs| ==> gs[k].date == d
    ensures k == |gs| <==> d !in DatesOf(gs)
  {
    IndexOf(DatesOf(gs), d)
  }

  /** One step of `group_by`: `(hash[x.date] ||= []) << x`. */
  function AddSample(gs: seq<Group>, x: Sample): (r: seq<Group>)
    ensures (forall i :: 0 <= i < |gs| ==> |gs[i].members| > 0) ==> forall i :: 0 <= i < |r| ==> |r[i].members| > 0
  {
    var k := IndexOfGroup(gs, x.date);
    if k < |gs| then gs[k := Group(gs[k].date, gs[k].members + [x])]
    else gs + [Group(x.date, [x])]
  }

  /** `group_by { |f| Date.parse(f['dt_txt']) }`, keys in insertion order. */
  function GroupByDate(samples: seq<Sample>): (gs: seq<Group>)
    ensures forall i :: 0 <= i < |gs| ==> |gs[i].members| > 0
  {
    if samples == [] then []
    else AddSample(GroupByDate(samples[..|samples| - 1]), samples[|samples| - 1])
  }

  /** `temps.max` over a group. */
  function MaxTemp(s: seq<Sample>): (m: int)
    requires |s| > 0
    ensures forall x :: x in s ==> x.temp <= m
    ensures exists x :: x in s && x.temp == m
  {
    if |s| == 1 then s[0].temp
    else
      var rest := MaxTemp(s[1..]);
      assert forall x :: x in s[1..] ==> x in s;
      if s[0].temp >= rest then s[0].temp else rest
  }

  /** `temps.min` over a group. */
  function MinTemp(s: seq<Sample>): (m: int)
    requires |s| > 0
    ensures forall x :: x in s ==> m <= x.temp
    ensures exists x :: x in s && x.temp == m
  {
    if |s| == 1 then s[0].temp
    else
      var rest := MinTemp(s[1..]);
      assert forall x :: x in s[1..] ==> x in s;
      if s[0].temp <= rest then s[0].temp else rest
  }

  /** The hash the `map` block builds for one group (`date` kept as its key). */
  function Summarize(g: Group): DailyForecast
    requires |g.members| > 0
  {
    var first := g.members[0];
    DailyForecast(g.date, MaxTemp(g.members), MinTemp(g.members), Text.Capitalize(first.description), first.icon)
  }

  function Summaries(gs: seq<Group>): (r: seq<DailyForecast>)
    requires forall i :: 0 <= i < |gs| ==> |gs[i].members| > 0
    ensures |r| == |gs| && forall i :: 0 <= i < |gs| ==> r[i] == Summarize(gs[i])
  {
    seq(|gs|, i requires 0 <= i < |gs| => Summarize(gs[i]))
  }

  /** `parse_extended_forecast(list)`. */
  function ParseExtendedForecast(samples: seq<Sample>): (r: seq<DailyForecast>)
    ensures |r| <= MaxDays
    ensures |r| == if |GroupByDate(samples)| <= MaxDays then |GroupByDate(samples)| else MaxDays
    ensures forall i :: 0 <= i < |r| ==> r[i] == Summarize(GroupByDate(samples)[i])
    ensures samples == [] <==> r == []
  {
    var all := Summaries(GroupByDate(samples));
    if |all| <= MaxDays then all else all[..MaxDays]
  }

  /** `get_forecast`: a result only when both responses succeeded and every field
      read from them is there; any other outcome raises the one message
      "Unable to fetch weather data". */
  function GetForecast(current: CurrentResponse, forecast: ForecastResponse): (r: Result<WeatherData>)
    ensures r.Ok? <==>
      current.success && forecast.success && current.temp.Some? && current.tempMax.Some?
      && current.tempMin.Some? && current.description.Some? && forecast.list.Some?
    ensures r.Err? ==> r.msg == FetchFailure
    ensures r.Ok? ==>
      && r.value.temperature == current.temp.value
      && r.value.highTemp == current.tempMax.value
      && r.value.lowTemp == current.tempMin.value
      && r.value.description == Text.Capitalize(current.description.value)
      && r.value.humidity.None? && r.value.windSpeed.None?
      && r.value.extendedForecast == Some(ParseExtendedForecast(forecast.list.value))
  {
    if current.success && forecast.success && current.temp.Some? && current.tempMax.Some?
       && current.tempMin.Some? && current.description.Some? && forecast.list.Some?
    then
      Ok(WeatherData(current.temp.value, current.tempMax.value, current.tempMin.value,
                     Text.Capitalize(current.description.value), None, None,
                     Some(ParseExtendedForecast(forecast.list.value))))
    else Err(FetchFailure)
  }

  // ---------------------------------------------------------------------------
  // What group_by builds, stated against the input list

  /** Each group is non-empty and starts with the first sample of its date. */
  predicate HeadsAreFirst(samples: seq<Sample>, gs: seq<Group>) {
    forall i :: 0 <= i < |gs| ==>
      && |gs[i].members| > 0
      && FirstIndex(samples, gs[i].date) < |samples|
      && gs[i].members[0] == samples[FirstIndex(samples, gs[i].date)]
  }

  /** Each group holds samples of the input with its own date ... */
  predicate MembersBelong(samples: seq<Sample>, gs: seq<Group>) {
    forall i, x :: 0 <= i < |gs| && x in gs[i].members ==> x.date == gs[i].date && x in samples
  }

  /** ... and every sample of the input with that date. */
  predicate MembersComplete(samples: seq<Sample>, gs: seq<Group>) {
    forall i, k :: 0 <= i < |gs| && 0 <= k < |samples| && samples[k].date == gs[i].date ==> samples[k] in gs[i].members
  }

  /** Groups appear in the order their dates first appear in the input. */
  predicate FirstAppearanceOrder(samples: seq<Sample>, gs: seq<Group>) {
    forall i, j :: 0 <= i < j < |gs| ==> FirstIndex(samples, gs[i].date) < FirstIndex(samples, gs[j].date)
  }

  /** Every date of the input has a group. */
  predicate DatesCovered(samples: seq<Sample>, gs: seq<Group>) {
    forall k :: 0 <= k < |samples| ==> samples[k].date in DatesOf(gs)
  }

  predicate GroupsOf(samples: seq<Sample>, gs: seq<Group>) {
    && HeadsAreFirst(samples, gs)
    && MembersBelong(samples, gs)
    && MembersComplete(samples, gs)
    && FirstAppearanceOrder(samples, gs)
    && DatesCovered(samples, gs)
  }

  lemma FirstIndexAppend(samples: seq<Sample>, x: Sample, d: int)
    ensures FirstIndex(samples + [x], d) ==
      if FirstIndex(samples, d) < |samples| then FirstIndex(samples, d)
      else if x.date == d then |samples| else |samples| + 1
  {
    assert SampleDates(samples + [x]) == SampleDates(samples) + [x.date];
    IndexOfAppend(SampleDates(samples), x.date, d);
  }

  /** A date that already occurs keeps its first index when a sample is appended. */
  lemma FirstIndexStable(samples: seq<Sample>, x: Sample, d: int)
    requires FirstIndex(samples, d) < |samples|
    ensures FirstIndex(samples + [x], d) == FirstIndex(samples, d)
  {
    FirstIndexAppend(samples, x, d);
  }

  /** Distinct groups have distinct dates. */
  lemma GroupDatesDistinct(samples: seq<Sample>, gs: seq<Group>, i: int, j: int)
    requires FirstAppearanceOrder(samples, gs)
    requires 0 <= i < |gs| && 0 <= j < |gs| && i != j
    ensures gs[i].date != gs[j].date
  {
    if i < j {
      assert FirstIndex(samples, gs[i].date) < FirstIndex(samples, gs[j].date);
    } else {
      assert FirstIndex(samples, gs[j].date) < FirstIndex(samples, gs[i].date);
    }
  }

  // Adding a sample whose date already has a group, one conjunct at a time.

  lemma ExistingHeads(samples: seq<Sample>, gs: seq<Group>, x: Sample)
    requires HeadsAreFirst(samples, gs)
    requires IndexOfGroup(gs, x.date) < |gs|
    ensures HeadsAreFirst(samples + [x], AddSample(gs, x))
  {
    var s' := samples + [x];
    var k := IndexOfGroup(gs, x.date);
    var gs' := AddSample(gs, x);
    forall i | 0 <= i < |gs'|
      ensures |gs'[i].members| > 0 && FirstIndex(s', gs'[i].date) < |s'|
      ensures gs'[i].members[0] == s'[FirstIndex(s', gs'[i].date)]
    {
      FirstIndexStable(samples, x, gs[i].date);
      assert s'[FirstIndex(samples, gs[i].date)] == samples[FirstIndex(samples, gs[i].date)];
    }
  }

  lemma ExistingBelong(samples: seq<Sample>, gs: seq<Group>, x: Sample)
    requires MembersBelong(samples, gs)
    requires IndexOfGroup(gs, x.date) < |gs|
    ensures MembersBelong(samples + [x], AddSample(gs, x))
  {
    var k := IndexOfGroup(gs, x.date);
    var gs' := AddSample(gs, x);
    forall i, y | 0 <= i < |gs'| && y in gs'[i].members
      ensures y.date == gs'[i].date && y in samples + [x]
    {
      if i == k && y !in gs[k].members {
        assert y == x;
      }
    }
  }

  lemma ExistingComplete(samples: seq<Sample>, gs: seq<Group>, x: Sample)
    requires MembersComplete(samples, gs) && FirstAppearanceOrder(samples, gs)
    requires IndexOfGroup(gs, x.date) < |gs|
    ensures MembersComplete(samples + [x], AddSample(gs, x))
  {
    var s' := samples + [x];
    var k := IndexOfGroup(gs, x.date);
    var gs' := AddSample(gs, x);
    forall i, m | 0 <= i < |gs'| && 0 <= m < |s'| && s'[m].date == gs'[i].date
      ensures s'[m] in gs'[i].members
    {
      if m == |samples| {
        if i != k {
          GroupDatesDistinct(samples, gs, i, k);
        }
      } else {
        assert s'[m] == samples[m];
      }
    }
  }

  lemma ExistingOrder(samples: seq<Sample>, gs: seq<Group>, x: Sample)
    requires HeadsAreFirst(samples, gs) && FirstAppearanceOrder(samples, gs)
    requires IndexOfGroup(gs, x.date) < |gs|
    ensures FirstAppearanceOrder(samples + [x], AddSample(gs, x))
  {
    var gs' := AddSample(gs, x);
    forall i, j | 0 <= i < j < |gs'|
      ensures FirstIndex(samples + [x], gs'[i].date) < FirstIndex(samples + [x], gs'[j].date)
    {
      FirstIndexStable(samples, x, gs[i].date);
      FirstIndexStable(samples, x, gs[j].date);
    }
  }

  lemma ExistingCovered(samples: seq<Sample>, gs: seq<Group>, x: Sample)
    requires DatesCovered(samples, gs)
    requires IndexOfGroup(gs, x.date) < |gs|
    ensures DatesCovered(samples + [x], AddSample(gs, x))
  {
    var s' := samples + [x];
    var gs' := AddSample(gs, x);
    assert DatesOf(gs') == DatesOf(gs);
    forall m | 0 <= m < |s'| ensures s'[m].date in DatesOf(gs') {
      if m < |samples| {
        assert s'[m] == samples[m];
      }
    }
  }

  /** Adding a sample whose date already has a group. */
  lemma AddToExistingGroup(samples: seq<Sample>, gs: seq<Group>, x: Sample)
    requires GroupsOf(samples, gs)
    requires IndexOfGroup(gs, x.date) < |gs|
    ensures GroupsOf(samples + [x], AddSample(gs, x))
  {
    ExistingHeads(samples, gs, x);
    ExistingBelong(samples, gs, x);
    ExistingComplete(samples, gs, x);
    ExistingOrder(samples, gs, x);
    ExistingCovered(samples, gs, x);
  }

  // Adding a sample whose date is new, one conjunct at a time.

  lemma NewHeads(samples: seq<Sample>, gs: seq<Group>, x: Sample)
    requires HeadsAreFirst(samples, gs) && DatesCovered(samples, gs)
    requires IndexOfGroup(gs, x.date) == |gs|
    ensures HeadsAreFirst(samples + [x], AddSample(gs, x))
  {
    var s' := samples + [x];
    var gs' := AddSample(gs, x);
    assert gs' == gs + [Group(x.date, [x])];
    NewDateIsFresh(samples, gs, x);
    forall i | 0 <= i < |gs'|
      ensures |gs'[i].members| > 0 && FirstIndex(s', gs'[i].date) < |s'|
      ensures gs'[i].members[0] == s'[FirstIndex(s', gs'[i].date)]
    {
      if i < |gs| {
        assert gs'[i] == gs[i];
        FirstIndexStable(samples, x, gs[i].date);
        assert s'[FirstIndex(samples, gs[i].date)] == samples[FirstIndex(samples, gs[i].date)];
      }
    }
  }

  /** A date with no group does not occur in the input yet. */
  lemma NewDateIsFresh(samples: seq<Sample>, gs: seq<Group>, x: Sample)
    requires DatesCovered(samples, gs)
    requires IndexOfGroup(gs, x.date) == |gs|
    ensures FirstIndex(samples, x.date) == |samples|
    ensures FirstIndex(samples + [x], x.date) == |samples|
  {
    assert forall m :: 0 <= m < |samples| ==> samples[m].date != x.date;
    FirstIndexAppend(samples, x, x.date);
  }

  lemma NewBelong(samples: seq<Sample>, gs: seq<Group>, x: Sample)
    requires MembersBelong(samples, gs)
    requires IndexOfGroup(gs, x.date) == |gs|
    ensures MembersBelong(samples + [x], AddSample(gs, x))
  {
    var gs' := AddSample(gs, x);
    assert gs' == gs + [Group(x.date, [x])];
    forall i, y | 0 <= i < |gs'| && y in gs'[i].members
      ensures y.date == gs'[i].date && y in samples + [x]
    {
      if i < |gs| {
        assert gs'[i] == gs[i];
      }
    }
  }

  lemma NewComplete(samples: seq<Sample>, gs: seq<Group>, x: Sample)
    requires MembersComplete(samples, gs) && DatesCovered(samples, gs)
    requires IndexOfGroup(gs, x.date) == |gs|
    ensures MembersComplete(samples + [x], AddSample(gs, x))
  {
    var s' := samples + [x];
    var gs' := AddSample(gs, x);
    assert gs' == gs + [Group(x.date, [x])];
    assert forall i :: 0 <= i < |gs| ==> gs[i].date != x.date;
    forall i, m | 0 <= i < |gs'| && 0 <= m < |s'| && s'[m].date == gs'[i].date
      ensures s'[m] in gs'[i].members
    {
      if m < |samples| {
        assert s'[m] == samples[m];
        assert samples[m].date in DatesOf(gs);
        if i < |gs| {
          assert gs'[i] == gs[i];
        }
      }
    }
  }

  lemma NewOrder(samples: seq<Sample>, gs: seq<Group>, x: Sample)
    requires HeadsAreFirst(samples, gs) && FirstAppearanceOrder(samples, gs) && DatesCovered(samples, gs)
    requires IndexOfGroup(gs, x.date) == |gs|
    ensures FirstAppearanceOrder(samples + [x], AddSample(gs, x))
  {
    var gs' := AddSample(gs, x);
    assert gs' == gs + [Group(x.date, [x])];
    NewDateIsFresh(samples, gs, x);
    forall i, j | 0 <= i < j < |gs'|
      ensures FirstIndex(samples + [x], gs'[i].date) < FirstIndex(samples + [x], gs'[j].date)
    {
      assert gs'[i] == gs[i];
      FirstIndexStable(samples, x, gs[i].date);
      if j < |gs| {
        assert gs'[j] == gs[j];
        FirstIndexStable(samples, x, gs[j].date);
      }
    }
  }

  lemma NewCovered(samples: seq<Sample>, gs: seq<Group>, x: Sample)
    requires DatesCovered(samples, gs)
    requires IndexOfGroup(gs, x.date) == |gs|
    ensures DatesCovered(samples + [x], AddSample(gs, x))
  {
    var s' := samples + [x];
    var gs' := AddSample(gs, x);
    assert gs' == gs + [Group(x.date, [x])];
    assert DatesOf(gs') == DatesOf(gs) + [x.date];
    forall m | 0 <= m < |s'| ensures s'[m].date in DatesOf(gs') {
      if m < |samples| {
        assert s'[m] == samples[m];
      }
    }
  }

  /** Adding a sample whose date is new: it opens the last group. */
  lemma AddNewGroup(samples: seq<Sample>, gs: seq<Group>, x: Sample)
    requires GroupsOf(samples, gs)
    requires IndexOfGroup(gs, x.date) == |gs|
    ensures GroupsOf(samples + [x], AddSample(gs, x))
  {
    NewHeads(samples, gs, x);
    NewBelong(samples, gs, x);
    NewComplete(samples, gs, x);
    NewOrder(samples, gs, x);
    NewCovered(samples, gs, x);
  }

  /** `group_by` groups the input exactly as its reference description says. */
  lemma {:induction false} GroupByDateCorrect(samples: seq<Sample>)
    ensures GroupsOf(samples, GroupByDate(samples))
  {
    if samples != [] {
      var prefix := samples[..|samples| - 1];
      var x := samples[|samples| - 1];
      assert samples == prefix + [x];
      GroupByDateCorrect(prefix);
      if IndexOfGroup(GroupByDate(prefix), x.date) < |GroupByDate(prefix)| {
        AddToExistingGroup(prefix, GroupByDate(prefix), x);
      } else {
        AddNewGroup(prefix, GroupByDate(prefix), x);
      }
    }
  }

  /** The groups' dates are exactly the dates of the input. */
  lemma GroupDatesAreSampleDates(samples: seq<Sample>)
    ensures forall d :: d in DatesOf(GroupByDate(samples)) <==> d in SampleDates(samples)
  {
    var gs := GroupByDate(samples);
    GroupByDateCorrect(samples);
    forall d | d in DatesOf(gs) ensures d in SampleDates(samples) {
      var i :| 0 <= i < |gs| && DatesOf(gs)[i] == d;
      var x := gs[i].members[0];
      assert x in gs[i].members;
      var k :| 0 <= k < |samples| && samples[k] == x;
      assert SampleDates(samples)[k] == d;
    }
    forall d | d in SampleDates(samples) ensures d in DatesOf(gs) {
      var k :| 0 <= k < |samples| && SampleDates(samples)[k] == d;
    }
  }

  // ---------------------------------------------------------------------------
  // parse_extended_forecast, stated against the input list

  /** Every day of the result is a date of the input, and the days come in the
      order their dates first appear in the input (so no date is repeated). */
  lemma ForecastDatesInOrder(samples: seq<Sample>)
    ensures forall i :: 0 <= i < |ParseExtendedForecast(samples)| ==>
      FirstIndex(samples, ParseExtendedForecast(samples)[i].date) < |samples|
    ensures forall i, j :: 0 <= i < j < |ParseExtendedForecast(samples)| ==>
      FirstIndex(samples, ParseExtendedForecast(samples)[i].date) < FirstIndex(samples, ParseExtendedForecast(samples)[j].date)
  {
    GroupByDateCorrect(samples);
  }

  /** The summary of a group that holds exactly the samples of its date. */
  lemma SummaryTemperatures(samples: seq<Sample>, g: Group)
    requires |g.members| > 0
    requires forall x :: x in g.members ==> x.date == g.date && x in samples
    requires forall k :: 0 <= k < |samples| && samples[k].date == g.date ==> samples[k] in g.members
    ensures forall k :: 0 <= k < |samples| && samples[k].date == g.date ==>
      Summarize(g).lowTemp <= samples[k].temp <= Summarize(g).highTemp
    ensures exists k :: 0 <= k < |samples| && samples[k].date == g.date && samples[k].temp == Summarize(g).highTemp
    ensures exists k :: 0 <= k < |samples| && samples[k].date == g.date && samples[k].temp == Summarize(g).lowTemp
    ensures Summarize(g).lowTemp <= Summarize(g).highTemp
  {
    var m := MaxTemp(g.members);
    assert exists x :: x in g.members && x.temp == m;
    var hi :| hi in g.members && hi.temp == m;
    assert hi in samples;
    var kh :| 0 <= kh < |samples| && samples[kh] == hi;
    var n := MinTemp(g.members);
    assert exists x :: x in g.members && x.temp == n;
    var lo :| lo in g.members && lo.temp == n;
    assert lo in samples;
    var kl :| 0 <= kl < |samples| && samples[kl] == lo;
    assert g.members[0] in g.members;
  }

  /** The i-th group holds exactly the samples of its date. */
  lemma GroupFacts(samples: seq<Sample>, i: int)
    requires 0 <= i < |GroupByDate(samples)|
    ensures |GroupByDate(samples)[i].members| > 0
    ensures forall x :: x in GroupByDate(samples)[i].members ==> x.date == GroupByDate(samples)[i].date && x in samples
    ensures forall k :: 0 <= k < |samples| && samples[k].date == GroupByDate(samples)[i].date ==>
      samples[k] in GroupByDate(samples)[i].members
  {
    GroupByDateCorrect(samples);
  }

  /** A day's high and low are the largest and smallest temperature of the
      samples of that date, and both are attained by one of them. */
  lemma ForecastTemperatures(samples: seq<Sample>, i: int)
    requires 0 <= i < |ParseExtendedForecast(samples)|
    ensures forall k :: 0 <= k < |samples| && samples[k].date == ParseExtendedForecast(samples)[i].date ==>
      ParseExtendedForecast(samples)[i].lowTemp <= samples[k].temp <= ParseExtendedForecast(samples)[i].highTemp
    ensures exists k :: (0 <= k < |samples| && samples[k].date == ParseExtendedForecast(samples)[i].date
      && samples[k].temp == ParseExtendedForecast(samples)[i].highTemp)
    ensures exists k :: (0 <= k < |samples| && samples[k].date == ParseExtendedForecast(samples)[i].date
      && samples[k].temp == ParseExtendedForecast(samples)[i].lowTemp)
    ensures ParseExtendedForecast(samples)[i].lowTemp <= ParseExtendedForecast(samples)[i].highTemp
  {
    var gs := GroupByDate(samples);
    GroupFacts(samples, i);
    SummaryTemperatures(samples, gs[i]);
    assert ParseExtendedForecast(samples)[i] == Summarize(gs[i]);
  }

  /** A day's description and icon come from the first sample of that date. */
  lemma ForecastFirstSample(samples: seq<Sample>, i: int)
    requires 0 <= i < |ParseExtendedForecast(samples)|
    ensures FirstIndex(samples, ParseExtendedForecast(samples)[i].date) < |samples|
    ensures ParseExtendedForecast(samples)[i].description ==
      Text.Capitalize(samples[FirstIndex(samples, ParseExtendedForecast(samples)[i].date)].description)
    ensures ParseExtendedForecast(samples)[i].icon ==
      samples[FirstIndex(samples, ParseExtendedForecast(samples)[i].date)].icon
  {
    GroupByDateCorrect(samples);
    assert ParseExtendedForecast(samples)[i] == Summarize(GroupByDate(samples)[i]);
  }

  /** Every date of the input has its day, unless five days are already shown,
      all of them of dates that appear earlier. */
  lemma ForecastKeepsFirstDates(samples: seq<Sample>, k: int)
    requires 0 <= k < |samples|
    ensures || (exists i :: 0 <= i < |ParseExtendedForecast(samples)| && ParseExtendedForecast(samples)[i].date == samples[k].date)
            || (&& |ParseExtendedForecast(samples)| == MaxDays
                && forall i :: 0 <= i < MaxDays ==>
                     FirstIndex(samples, ParseExtendedForecast(samples)[i].date) < FirstIndex(samples, samples[k].date))
  {
    var gs := GroupByDate(samples);
    var r := ParseExtendedForecast(samples);
    GroupByDateCorrect(samples);
    var d := samples[k].date;
    var j := IndexOfGroup(gs, d);
    assert j < |gs|;
    if j < |r| {
      assert r[j] == Summarize(gs[j]);
      assert r[j].date == d;
    } else {
      forall i | 0 <= i < MaxDays
        ensures FirstIndex(samples, r[i].date) < FirstIndex(samples, d)
      {
        assert r[i] == Summarize(gs[i]);
      }
    }
  }

  lemma CapitalizeSunny()
    ensures Text.Capitalize("Sunny") == "Sunny"
  {
    assert Text.Downcase("unny") == "unny";
  }

  /** Two samples on consecutive dates make two days; the first day's high and
      low are the one temperature of that date. */
  lemma TwoDayListExample()
    ensures |ParseExtendedForecast([Sample(0, 75, "Sunny", "01d"), Sample(1, 82, "Partly cloudy", "02d")])| == 2
    ensures ParseExtendedForecast([Sample(0, 75, "Sunny", "01d"), Sample(1, 82, "Partly cloudy", "02d")])[0]
      == DailyForecast(0, 75, 75, "Sunny", "01d")
  {
    var a := Sample(0, 75, "Sunny", "01d");
    var b := Sample(1, 82, "Partly cloudy", "02d");
    assert [a, b][..1] == [a];
    assert GroupByDate([a]) == [Group(0, [a])];
    assert GroupByDate([a, b]) == [Group(0, [a]), Group(1, [b])];
    CapitalizeSunny();
  }
}
