/** The archive page: published posts (newest first) bucketed by year and
    month, years and months listed in descending order, with per-year and
    overall counts. The calendar is an input: each post carries the year
    and the month its publication date falls in. */
module Archive {
  import opened Basics
  import opened Text
  import Ordering

  /** `getMonth() + 1`. */
  type Month = m: int | 1 <= m <= 12 witness 1

  datatype Date = Date(year: int, month: Month)

  datatype ArchivePost = ArchivePost(id: int, title: string, slug: string, publishedAt: Option<Date>)

  /** The nested dictionary `postsByYear[year][month]`, keyed by the numbers
      the string keys spell (see `KeysRoundTrip`). */
  type Buckets = map<int, map<int, seq<ArchivePost>>>

  // ---------------------------------------------------------------------------
  // Reference definitions (each by recursion on the last post, the order in
  // which `forEach` visits them)
  // ---------------------------------------------------------------------------

  function Last<T>(s: seq<T>): T
    requires s != []
  {
    s[|s| - 1]
  }

  function Init<T>(s: seq<T>): seq<T>
    requires s != []
  {
    s[..|s| - 1]
  }

  /** Published in month `m` of year `y`. */
  predicate DatedAt(p: ArchivePost, y: int, m: int)
  {
    p.publishedAt.Some? && p.publishedAt.value.year == y && p.publishedAt.value.month as int == m
  }

  /** The posts dated in month `m` of year `y`, in input order. */
  function InMonth(ps: seq<ArchivePost>, y: int, m: int): seq<ArchivePost>
  {
    if ps == [] then []
    else
      var rest := InMonth(Init(ps), y, m);
      if DatedAt(Last(ps), y, m) then rest + [Last(ps)] else rest
  }

  /** The posts dated in year `y`. */
  function InYear(ps: seq<ArchivePost>, y: int): seq<ArchivePost>
  {
    if ps == [] then []
    else
      var rest := InYear(Init(ps), y);
      if Last(ps).publishedAt.Some? && Last(ps).publishedAt.value.year == y then rest + [Last(ps)] else rest
  }

  /** The posts that have a publication date. */
  function Dated(ps: seq<ArchivePost>): seq<ArchivePost>
  {
    if ps == [] then []
    else
      var rest := Dated(Init(ps));
      if Last(ps).publishedAt.Some? then rest + [Last(ps)] else rest
  }

  /** The year of every dated post, with repetitions. */
  function YearList(ps: seq<ArchivePost>): seq<int>
  {
    if ps == [] then []
    else YearList(Init(ps)) + (if Last(ps).publishedAt.Some? then [Last(ps).publishedAt.value.year] else [])
  }

  /** The month of every post dated in year `y`, with repetitions. */
  function MonthList(ps: seq<ArchivePost>, y: int): seq<int>
  {
    if ps == [] then []
    else
      MonthList(Init(ps), y)
        + (if Last(ps).publishedAt.Some? && Last(ps).publishedAt.value.year == y
           then [Last(ps).publishedAt.value.month as int] else [])
  }

  /** The year keys the page creates. */
  function YearsOf(ps: seq<ArchivePost>): set<int>
  {
    set y | y in YearList(ps)
  }

  /** The month keys the page creates under year `y`. */
  function MonthsOf(ps: seq<ArchivePost>, y: int): set<int>
  {
    set m | m in MonthList(ps, y)
  }

  lemma {:induction false} YearListMembers(ps: seq<ArchivePost>)
    ensures forall y :: y in YearList(ps) <==> exists p :: p in ps && p.publishedAt.Some? && p.publishedAt.value.year == y
  {
    if ps != [] {
      YearListMembers(Init(ps));
      assert ps == Init(ps) + [Last(ps)];
    }
  }

  lemma {:induction false} MonthListMembers(ps: seq<ArchivePost>, y: int)
    ensures forall m :: m in MonthList(ps, y) <==> exists p :: p in ps && DatedAt(p, y, m)
  {
    if ps != [] {
      MonthListMembers(Init(ps), y);
      assert ps == Init(ps) + [Last(ps)];
      forall m | m in MonthList(ps, y)
        ensures exists p :: p in ps && DatedAt(p, y, m)
      {
        if m !in MonthList(Init(ps), y) {
          assert DatedAt(Last(ps), y, m);
        }
      }
    }
  }

  // ---------------------------------------------------------------------------
  // Keys
  // ---------------------------------------------------------------------------

  /** `(getMonth() + 1).toString().padStart(2, '0')`. */
  function MonthKey(m: Month): string
  {
    PadStart(NatToString(m), 2, '0')
  }

  /** The string keys spell their numbers: `parseInt` reads back the year
      and the month, so sorting by `parseInt` sorts by the numbers and two
      different numbers never share a key. */
  lemma KeysRoundTrip(y: int, m: Month)
    ensures ParseInt(IntToString(y)) == Some(y)
    ensures |MonthKey(m)| == 2 && ParseInt(MonthKey(m)) == Some(m as int)
  {
    assert |NatToString(m)| <= 2 by {
      if m >= 10 { assert NatToString(m) == NatToString(m / 10) + [DigitChar(m % 10)]; }
    }
    ParseIntOfIntToString(y);
    ParseIntOfPadded(m, 2);
  }

  // ---------------------------------------------------------------------------
  // Grouping
  // ---------------------------------------------------------------------------

  /** The `forEach` that fills `postsByYear`: undated posts are skipped, a
      dated one is appended to its year's month bucket, creating the year
      and the month entry on first use. */
  method GroupPosts(posts: seq<ArchivePost>) returns (byYear: Buckets)
    ensures Grouped(byYear, posts)
  {
    byYear := map[];
    for i := 0 to |posts|
      invariant Grouped(byYear, posts[..i])
    {
      TakeOneMore(posts, i);
      AddKeepsGrouped(byYear, posts[..i], posts[i]);
      byYear := Add(byYear, posts[i]);
    }
    TakeAll(posts);
  }

  /** One iteration of the `forEach`. */
  function Add(byYear: Buckets, post: ArchivePost): (r: Buckets)
    // an undated post changes nothing; a dated one adds at most its own
    // year and month keys and is appended to its own bucket only
    ensures post.publishedAt.None? ==> r == byYear
    ensures post.publishedAt.Some? ==> r.Keys == byYear.Keys + {post.publishedAt.value.year}
    ensures forall y :: y in r ==>
      r[y].Keys == (if y in byYear then byYear[y].Keys else {})
                   + (if post.publishedAt.Some? && post.publishedAt.value.year == y then {post.publishedAt.value.month as int} else {})
    ensures forall y, m :: y in r && m in r[y] ==>
      r[y][m] == (if y in byYear && m in byYear[y] then byYear[y][m] else []) + (if DatedAt(post, y, m) then [post] else [])
  {
    if post.publishedAt.None? then byYear
    else
      var year := post.publishedAt.value.year;
      var month := post.publishedAt.value.month as int;
      var months := if year in byYear then byYear[year] else map[];
      var bucket := if month in months then months[month] else [];
      byYear[year := months[month := bucket + [post]]]
  }

  /** `byYear` holds exactly the buckets of `ps`: one year key per year some
      post is dated in, one month key per month, each bucket its posts. */
  ghost predicate Grouped(byYear: Buckets, ps: seq<ArchivePost>)
  {
    && byYear.Keys == YearsOf(ps)
    && (forall y :: y in byYear ==> GroupedYear(byYear[y], ps, y))
  }

  /** `byMonth` holds exactly the month buckets of year `y`. */
  ghost predicate GroupedYear(byMonth: map<int, seq<ArchivePost>>, ps: seq<ArchivePost>, y: int)
  {
    && byMonth.Keys == MonthsOf(ps, y)
    && (forall m :: m in byMonth ==> byMonth[m] == InMonth(ps, y, m))
  }

  /** The loop body keeps the buckets in step with the posts visited. */
  lemma AddKeepsGrouped(byYear: Buckets, ps: seq<ArchivePost>, post: ArchivePost)
    requires Grouped(byYear, ps)
    ensures Grouped(Add(byYear, post), ps + [post])
  {
    YearsStep(ps, post);
    forall y | y in Add(byYear, post) ensures GroupedYear(Add(byYear, post)[y], ps + [post], y) {
      AddKeepsYear(byYear, ps, post, y);
    }
  }

  lemma AddKeepsYear(byYear: Buckets, ps: seq<ArchivePost>, post: ArchivePost, y: int)
    requires Grouped(byYear, ps) && y in Add(byYear, post)
    ensures GroupedYear(Add(byYear, post)[y], ps + [post], y)
  {
    var b := Add(byYear, post);
    MonthsStep(ps, post, y);
    if post.publishedAt.Some? && post.publishedAt.value.year == y {
      var months := if y in byYear then byYear[y] else map[];
      if y !in byYear {
        NoYearNoMonths(ps, y);
      }
      assert months.Keys == MonthsOf(ps, y);
      forall m | m in b[y] ensures b[y][m] == InMonth(ps + [post], y, m) {
        InMonthStep(ps, post, y, m);
        if m !in months {
          InMonthEmpty(ps, y, m);
        }
      }
    } else {
      assert b[y] == byYear[y];
      forall m | m in b[y] ensures b[y][m] == InMonth(ps + [post], y, m) {
        InMonthStep(ps, post, y, m);
      }
    }
  }

  lemma NoYearNoMonths(ps: seq<ArchivePost>, y: int)
    requires y !in YearsOf(ps)
    ensures MonthsOf(ps, y) == {}
  {
    forall m ensures m !in MonthsOf(ps, y) {
      NoYearNoMonth(ps, y, m);
    }
  }

  lemma NoYearNoMonth(ps: seq<ArchivePost>, y: int, m: int)
    requires y !in YearsOf(ps)
    ensures m !in MonthsOf(ps, y)
  {
    YearListMembers(ps);
    MonthListMembers(ps, y);
  }

  lemma InMonthEmpty(ps: seq<ArchivePost>, y: int, m: int)
    requires m !in MonthsOf(ps, y)
    ensures InMonth(ps, y, m) == []
  {
    MonthBucketSize(ps, y, m);
  }

  /** Appending one post adds at most its own year, month and bucket entry. */
  lemma YearsStep(ps: seq<ArchivePost>, p: ArchivePost)
    ensures YearsOf(ps + [p]) == YearsOf(ps) + (if p.publishedAt.Some? then {p.publishedAt.value.year} else {})
  {
    assert Init(ps + [p]) == ps && Last(ps + [p]) == p;
  }

  lemma MonthsStep(ps: seq<ArchivePost>, p: ArchivePost, y: int)
    ensures MonthsOf(ps + [p], y) == MonthsOf(ps, y) + (if p.publishedAt.Some? && p.publishedAt.value.year == y then {p.publishedAt.value.month as int} else {})
  {
    assert Init(ps + [p]) == ps && Last(ps + [p]) == p;
  }

  lemma InMonthStep(ps: seq<ArchivePost>, p: ArchivePost, y: int, m: int)
    ensures InMonth(ps + [p], y, m) == InMonth(ps, y, m) + (if DatedAt(p, y, m) then [p] else [])
  {
    assert Init(ps + [p]) == ps && Last(ps + [p]) == p;
  }

  /** `Object.keys(...).sort((a, b) => parseInt(b) - parseInt(a))`, by
      repeatedly taking the largest remaining key. */
  method SortDescending(keys: set<int>) returns (r: seq<int>)
    ensures |r| == |keys|
    ensures forall x :: x in r <==> x in keys
    ensures forall i, j :: 0 <= i < j < |r| ==> r[i] > r[j]
  {
    r := [];
    var rest := keys;
    while rest != {}
      invariant rest <= keys
      invariant forall x :: x in r <==> x in keys && x !in rest
      invariant |r| + |rest| == |keys|
      invariant forall i, j :: 0 <= i < j < |r| ==> r[i] > r[j]
      invariant forall i, x :: 0 <= i < |r| && x in rest ==> r[i] > x
      decreases |rest|
    {
      HasMax(rest);
      var m :| m in rest && forall x :: x in rest ==> x <= m;
      r := r + [m];
      rest := rest - {m};
    }
  }

  lemma {:induction false} HasMax(s: set<int>)
    requires s != {}
    ensures exists m :: m in s && forall x :: x in s ==> x <= m
    decreases s
  {
    Ordering.NoMemberMeansEmpty(s);
    var x :| x in s;
    if s != {x} {
      HasMax(s - {x});
      var m :| m in s - {x} && forall y :: y in s - {x} ==> y <= m;
      var most := if x > m then x else m;
      forall y | y in s ensures y <= most {
        if y != x { assert y in s - {x}; }
      }
    } else {
      assert forall y :: y in s ==> y <= x;
    }
  }

  // ---------------------------------------------------------------------------
  // The page's view
  // ---------------------------------------------------------------------------

  datatype MonthGroup = MonthGroup(month: Month, posts: seq<ArchivePost>)

  datatype YearGroup = YearGroup(year: int, count: nat, months: seq<MonthGroup>)

  /** `months.reduce((sum, month) => sum + postsByYear[year][month].length, 0)`. */
  function SizeSum(ms: seq<MonthGroup>): nat
  {
    if ms == [] then 0 else SizeSum(ms[..|ms| - 1]) + |ms[|ms| - 1].posts|
  }

  function YearSum(ys: seq<YearGroup>): nat
  {
    if ys == [] then 0 else YearSum(ys[..|ys| - 1]) + ys[|ys| - 1].count
  }

  /** The month numbers of a year's sections, in page order. */
  function MonthNumbers(ms: seq<MonthGroup>): (r: seq<int>)
    ensures |r| == |ms|
    ensures forall j :: 0 <= j < |ms| ==> r[j] == ms[j].month as int
  {
    if ms == [] then [] else MonthNumbers(ms[..|ms| - 1]) + [ms[|ms| - 1].month as int]
  }

  /** The year numbers of the page's sections, in page order. */
  function YearNumbers(ys: seq<YearGroup>): (r: seq<int>)
    ensures |r| == |ys|
    ensures forall i :: 0 <= i < |ys| ==> r[i] == ys[i].year
  {
    if ys == [] then [] else YearNumbers(ys[..|ys| - 1]) + [ys[|ys| - 1].year]
  }

  predicate Descending(s: seq<int>)
  {
    forall i, j :: 0 <= i < j < |s| ==> s[i] > s[j]
  }

  /** One year's section as the page renders it. */
  ghost predicate WellFormedYear(posts: seq<ArchivePost>, g: YearGroup)
  {
    && (forall m :: m in MonthsOf(posts, g.year) <==> m in MonthNumbers(g.months))
    && Descending(MonthNumbers(g.months))
    && WellFormedMonths(posts, g.year, g.months)
    && g.count == SizeSum(g.months)
  }

  /** One month's row: its bucket. */
  ghost predicate WellFormedMonth(posts: seq<ArchivePost>, year: int, g: MonthGroup)
  {
    g.posts == InMonth(posts, year, g.month)
  }

  ghost predicate WellFormedYears(posts: seq<ArchivePost>, years: seq<YearGroup>)
  {
    forall i :: 0 <= i < |years| ==> WellFormedYear(posts, years[i])
  }

  lemma AppendYear(posts: seq<ArchivePost>, years: seq<YearGroup>, g: YearGroup)
    requires WellFormedYears(posts, years) && WellFormedYear(posts, g)
    ensures WellFormedYears(posts, years + [g])
    ensures YearNumbers(years + [g]) == YearNumbers(years) + [g.year]
  {
    assert (years + [g])[..|years|] == years;
    assert forall i :: 0 <= i < |years| ==> (years + [g])[i] == years[i];
  }

  /** One year's `months.map(...)` and its `count`. */
  method BuildYear(posts: seq<ArchivePost>, year: int, byMonth: map<int, seq<ArchivePost>>) returns (g: YearGroup)
    requires GroupedYear(byMonth, posts, year)
    ensures g.year == year
    ensures WellFormedYear(posts, g)
  {
    var monthKeys := SortDescending(byMonth.Keys);
    var months: seq<MonthGroup> := [];
    var count: nat := 0;
    for j := 0 to |monthKeys|
      invariant MonthNumbers(months) == monthKeys[..j]
      invariant WellFormedMonths(posts, year, months)
      invariant count == SizeSum(months)
    {
      var m := monthKeys[j];
      assert m in byMonth;
      MonthInRange(posts, year, m);
      var group := MonthGroup(m, byMonth[m]);
      AppendMonth(posts, year, months, group);
      TakeOneMore(monthKeys, j);
      months := months + [group];
      count := count + |group.posts|;
    }
    TakeAll(monthKeys);
    g := YearGroup(year, count, months);
  }

  ghost predicate WellFormedMonths(posts: seq<ArchivePost>, year: int, months: seq<MonthGroup>)
  {
    forall j :: 0 <= j < |months| ==> WellFormedMonth(posts, year, months[j])
  }

  lemma AppendMonth(posts: seq<ArchivePost>, year: int, months: seq<MonthGroup>, g: MonthGroup)
    requires WellFormedMonths(posts, year, months) && WellFormedMonth(posts, year, g)
    ensures WellFormedMonths(posts, year, months + [g])
    ensures MonthNumbers(months + [g]) == MonthNumbers(months) + [g.month as int]
    ensures SizeSum(months + [g]) == SizeSum(months) + |g.posts|
  {
    assert (months + [g])[..|months|] == months;
    assert forall j :: 0 <= j < |months| ==> (months + [g])[j] == months[j];
  }

  lemma MonthInRange(ps: seq<ArchivePost>, y: int, m: int)
    requires m in MonthsOf(ps, y)
    ensures 1 <= m <= 12
  {
    MonthsInRange(ps, y);
  }

  lemma {:induction false} MonthsInRange(ps: seq<ArchivePost>, y: int)
    ensures forall m :: m in MonthList(ps, y) ==> 1 <= m <= 12
  {
    if ps != [] {
      MonthsInRange(Init(ps), y);
    }
  }

  /** The whole page: years in descending order, each year's months in
      descending order, each month its bucket, and the total. */
  method BuildArchive(posts: seq<ArchivePost>) returns (years: seq<YearGroup>, totalPosts: nat)
    ensures totalPosts == |posts|
    ensures forall y :: y in YearsOf(posts) <==> y in YearNumbers(years)
    ensures Descending(YearNumbers(years))
    ensures WellFormedYears(posts, years)
  {
    var byYear := GroupPosts(posts);
    var yearKeys := SortDescending(byYear.Keys);
    years := [];
    for i := 0 to |yearKeys|
      invariant YearNumbers(years) == yearKeys[..i]
      invariant WellFormedYears(posts, years)
    {
      var year := yearKeys[i];
      assert year in byYear;
      TakeOneMore(yearKeys, i);
      years := AddYear(posts, years, year, byYear[year]);
    }
    TakeAll(yearKeys);
    totalPosts := |posts|;
  }

  /** One step of `years.map(...)`: the section of `year` after the others. */
  method AddYear(posts: seq<ArchivePost>, years: seq<YearGroup>, year: int, byMonth: map<int, seq<ArchivePost>>)
    returns (years': seq<YearGroup>)
    requires GroupedYear(byMonth, posts, year)
    requires WellFormedYears(posts, years)
    ensures YearNumbers(years') == YearNumbers(years) + [year]
    ensures WellFormedYears(posts, years')
  {
    var g := BuildYear(posts, year, byMonth);
    AppendYear(posts, years, g);
    years' := years + [g];
  }

  // ---------------------------------------------------------------------------
  // Counting
  // ---------------------------------------------------------------------------

  /** `sum over k in ks of (occurrences of k in xs)`. */
  function Tally(xs: seq<int>, ks: seq<int>): nat
  {
    if ks == [] then 0 else multiset(xs)[ks[0]] + Tally(xs, ks[1..])
  }

  lemma {:induction false} TallyAppend(xs: seq<int>, x: int, ks: seq<int>)
    ensures Tally(xs + [x], ks) == Tally(xs, ks) + multiset(ks)[x]
  {
    if ks != [] {
      TallyAppend(xs, x, ks[1..]);
      assert ks == [ks[0]] + ks[1..];
    }
  }

  lemma {:induction false} DistinctOnce(ks: seq<int>, x: int)
    requires forall i, j :: 0 <= i < j < |ks| ==> ks[i] != ks[j]
    ensures multiset(ks)[x] == if x in ks then 1 else 0
  {
    if ks != [] {
      DistinctOnce(ks[1..], x);
      assert ks == [ks[0]] + ks[1..];
      if ks[0] == x {
        assert x !in ks[1..] by {
          forall j | 0 <= j < |ks[1..]| ensures ks[1..][j] != x {
            assert ks[1..][j] == ks[j + 1];
          }
        }
      }
    }
  }

  /** Tallying every element of `xs` once under distinct keys that cover
      them counts `xs`. */
  lemma {:induction false} TallyCovers(xs: seq<int>, ks: seq<int>)
    requires forall i, j :: 0 <= i < j < |ks| ==> ks[i] != ks[j]
    requires forall x :: x in xs ==> x in ks
    ensures Tally(xs, ks) == |xs|
  {
    if xs == [] {
      TallyEmpty(ks);
    } else {
      var init := xs[..|xs| - 1];
      var x := xs[|xs| - 1];
      assert xs == init + [x];
      TallyCovers(init, ks);
      TallyAppend(init, x, ks);
      DistinctOnce(ks, x);
    }
  }

  lemma {:induction false} TallyEmpty(ks: seq<int>)
    ensures Tally([], ks) == 0
  {
    if ks != [] { TallyEmpty(ks[1..]); }
  }

  lemma {:induction false} MonthBucketSize(ps: seq<ArchivePost>, y: int, m: int)
    ensures |InMonth(ps, y, m)| == multiset(MonthList(ps, y))[m]
  {
    if ps != [] { MonthBucketSize(Init(ps), y, m); }
  }

  lemma {:induction false} YearSize(ps: seq<ArchivePost>, y: int)
    ensures |InYear(ps, y)| == multiset(YearList(ps))[y] == |MonthList(ps, y)|
  {
    if ps != [] { YearSize(Init(ps), y); }
  }

  lemma {:induction false} DatedSize(ps: seq<ArchivePost>)
    ensures |Dated(ps)| == |YearList(ps)|
  {
    if ps != [] { DatedSize(Init(ps)); }
  }

  /** The month sizes, tallied. */
  lemma {:induction false} SizeSumIsTally(posts: seq<ArchivePost>, y: int, ms: seq<MonthGroup>)
    requires forall j :: 0 <= j < |ms| ==> ms[j].posts == InMonth(posts, y, ms[j].month)
    ensures SizeSum(ms) == Tally(MonthList(posts, y), MonthNumbers(ms))
  {
    if ms != [] {
      var init := ms[..|ms| - 1];
      SizeSumIsTally(posts, y, init);
      MonthBucketSize(posts, y, ms[|ms| - 1].month);
      TallyLast(MonthList(posts, y), MonthNumbers(ms));
      assert MonthNumbers(ms)[..|ms| - 1] == MonthNumbers(init);
    }
  }

  lemma {:induction false} TallyLast(xs: seq<int>, ks: seq<int>)
    requires ks != []
    ensures Tally(xs, ks) == Tally(xs, ks[..|ks| - 1]) + multiset(xs)[ks[|ks| - 1]]
  {
    if |ks| > 1 {
      TallyLast(xs, ks[1..]);
      assert ks[1..][..|ks[1..]| - 1] == ks[..|ks| - 1][1..];
    }
  }

  /** Month sections with the right buckets, one per month key and no month
      twice, add up to the posts of the year. */
  lemma MonthsAddUp(posts: seq<ArchivePost>, y: int, ms: seq<MonthGroup>)
    requires WellFormedMonths(posts, y, ms)
    requires forall m :: m in MonthsOf(posts, y) ==> m in MonthNumbers(ms)
    requires Descending(MonthNumbers(ms))
    ensures SizeSum(ms) == |InYear(posts, y)|
  {
    SizeSumIsTally(posts, y, ms);
    assert forall x :: x in MonthList(posts, y) ==> x in MonthsOf(posts, y);
    TallyCovers(MonthList(posts, y), MonthNumbers(ms));
    YearSize(posts, y);
  }

  /** A year's count is the number of posts dated in that year. */
  lemma YearCountIsPostsOfYear(posts: seq<ArchivePost>, g: YearGroup)
    requires WellFormedYear(posts, g)
    ensures g.count == |InYear(posts, g.year)|
  {
    MonthsAddUp(posts, g.year, g.months);
  }

  /** The year counts add up to the number of dated posts; undated posts
      are counted in `totalPosts` only. */
  lemma YearCountsAddUp(posts: seq<ArchivePost>, years: seq<YearGroup>)
    requires forall y :: y in YearsOf(posts) <==> y in YearNumbers(years)
    requires Descending(YearNumbers(years))
    requires WellFormedYears(posts, years)
    ensures YearSum(years) == |Dated(posts)|
  {
    YearSumIsTally(posts, years);
    assert forall x :: x in YearList(posts) ==> x in YearsOf(posts);
    TallyCovers(YearList(posts), YearNumbers(years));
    DatedSize(posts);
  }

  lemma {:induction false} YearSumIsTally(posts: seq<ArchivePost>, years: seq<YearGroup>)
    requires WellFormedYears(posts, years)
    ensures YearSum(years) == Tally(YearList(posts), YearNumbers(years))
  {
    if years != [] {
      var init := years[..|years| - 1];
      assert WellFormedYears(posts, init) by {
        assert forall i :: 0 <= i < |init| ==> init[i] == years[i];
      }
      YearSumIsTally(posts, init);
      YearCountIsPostsOfYear(posts, years[|years| - 1]);
      YearSize(posts, years[|years| - 1].year);
      TallyLast(YearList(posts), YearNumbers(years));
      assert YearNumbers(years)[..|years| - 1] == YearNumbers(init);
    }
  }

  /** A bucket holds exactly the posts dated in its month: a dated post
      lies in the bucket of its own year and month and in no other, an
      undated post in none. */
  lemma {:induction false} InYearMembers(ps: seq<ArchivePost>, y: int)
    ensures forall p :: p in InYear(ps, y) <==> p in ps && p.publishedAt.Some? && p.publishedAt.value.year == y
  {
    if ps != [] {
      InYearMembers(Init(ps), y);
      assert ps == Init(ps) + [Last(ps)];
    }
  }

  lemma {:induction false} DatedMembers(ps: seq<ArchivePost>)
    ensures forall p :: p in Dated(ps) <==> p in ps && p.publishedAt.Some?
  {
    if ps != [] {
      DatedMembers(Init(ps));
      assert ps == Init(ps) + [Last(ps)];
    }
  }

  lemma {:induction false} InMonthMembers(ps: seq<ArchivePost>, y: int, m: int)
    ensures forall p :: p in InMonth(ps, y, m) <==> p in ps && DatedAt(p, y, m)
  {
    if ps != [] {
      InMonthMembers(Init(ps), y, m);
      assert ps == Init(ps) + [Last(ps)];
    }
  }
}
