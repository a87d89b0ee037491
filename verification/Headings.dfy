/** Heading identifiers: every heading outside fences gets one of its own, with the least
    free suffix where its slug is taken. */
module Headings {
  import opened ByteStrings
  import opened Texts
  import opened MarkdownScan

  /** What the patterns find on one line of a page. */
  datatype Line = Line(marker: Fence, ids: set<string>, slug: Option<string>)

  // -------------------------------------------------------------- suffixes

  function Digit(n: nat): char
    requires n < 10
  {
    (n + 48) as char
  }

  function Decimal(n: nat): (t: string)
    ensures t != ""
  {
    if n < 10 then [Digit(n)] else Decimal(n / 10) + [Digit(n % 10)]
  }

  /** A text of digits read from left to right, after the number `n` so far. */
  function ReadFrom(t: string, n: int): int {
    if t == "" then n else ReadFrom(t[1..], 10 * n + (t[0] as int - '0' as int))
  }

  lemma {:induction false} ReadLast(t: string, ch: char, n: int)
    ensures ReadFrom(t + [ch], n) == 10 * ReadFrom(t, n) + (ch as int - '0' as int)
    decreases |t|
  {
    var s := t + [ch];
    if t == "" {
      assert s[1..] == "";
    } else {
      assert s[1..] == t[1..] + [ch];
      ReadLast(t[1..], ch, 10 * n + (t[0] as int - '0' as int));
    }
  }

  /** A suffix consists of digits, does not begin with a zero unless it is one, and is read as
      its number. */
  lemma {:induction false} DecimalIs(n: nat)
    ensures ReadFrom(Decimal(n), 0) == n
    ensures forall k :: 0 <= k < |Decimal(n)| ==> '0' <= Decimal(n)[k] <= '9'
    ensures n > 0 ==> Decimal(n)[0] != '0'
    decreases n
  {
    hide ReadFrom;
    if n < 10 {
      OneDigit(n);
    } else {
      DecimalIs(n / 10);
      ReadLast(Decimal(n / 10), Digit(n % 10), 0);
    }
  }

  lemma OneDigit(n: nat)
    requires n < 10
    ensures ReadFrom([Digit(n)], 0) == n
  {
    assert [Digit(n)][1..] == "";
  }

  lemma {:induction false} DecimalInjective(a: nat, b: nat)
    requires Decimal(a) == Decimal(b)
    ensures a == b
    decreases a
  {
    var s, t := Decimal(a), Decimal(b);
    assert s[|s| - 1] == Digit(a % 10) && t[|t| - 1] == Digit(b % 10);
    if a >= 10 && b >= 10 {
      assert s[..|s| - 1] == Decimal(a / 10) && t[..|t| - 1] == Decimal(b / 10);
      DecimalInjective(a / 10, b / 10);
    }
  }

  /** The `n`-th name tried for a slug. */
  function Candidate(slug: string, n: nat): string {
    if n == 0 then slug else slug + "-" + Decimal(n)
  }

  lemma CandidateInjective(slug: string, a: nat, b: nat)
    requires Candidate(slug, a) == Candidate(slug, b)
    ensures a == b
  {
    var s, t := Candidate(slug, a), Candidate(slug, b);
    if a > 0 && b > 0 {
      assert s[|slug| + 1..] == Decimal(a) && t[|slug| + 1..] == Decimal(b);
      DecimalInjective(a, b);
    }
  }

  /** As many different names as tries: if all of them are taken, that many are taken. */
  lemma {:induction false} TriesTaken(slug: string, used: set<string>, n: nat)
    requires forall m :: 0 <= m < n ==> Candidate(slug, m) in used
    ensures n <= |used|
    decreases n
  {
    if n > 0 {
      var last := Candidate(slug, n - 1);
      forall m | 0 <= m < n - 1 ensures Candidate(slug, m) in used - {last} {
        if Candidate(slug, m) == last {
          CandidateInjective(slug, m, n - 1);
        }
      }
      TriesTaken(slug, used - {last}, n - 1);
    }
  }

  /** The number of the first free name, when the first `n` are taken. */
  function FreeFrom(slug: string, used: set<string>, n: nat): (k: nat)
    requires forall m :: 0 <= m < n ==> Candidate(slug, m) in used
    ensures k <= |used| && Candidate(slug, k) !in used
    ensures forall m :: 0 <= m < k ==> Candidate(slug, m) in used
    decreases |used| - n
  {
    TriesTaken(slug, used, n);
    if Candidate(slug, n) !in used then n
    else
      (TriesTaken(slug, used, n + 1);
       FreeFrom(slug, used, n + 1))
  }

  function FreeName(slug: string, used: set<string>): string {
    Candidate(slug, FreeFrom(slug, used, 0))
  }

  /** The search loop. It ends, since only so many names can be taken. */
  method FindFree(slug: string, used: set<string>) returns (candidate: string)
    ensures candidate == FreeName(slug, used)
  {
    candidate := slug;
    var number := 0;
    while candidate in used
      invariant candidate == Candidate(slug, number)
      invariant forall m :: 0 <= m < number ==> Candidate(slug, m) in used
      invariant FreeFrom(slug, used, number) == FreeFrom(slug, used, 0)
      decreases |used| - number
    {
      TriesTaken(slug, used, number + 1);
      number := number + 1;
      candidate := slug + "-" + Decimal(number);
    }
  }

  // ------------------------------------------------------------------ pages

  predicate IsRead(line: Line, fence: Fence) {
    line.marker.NoFence? && fence.NoFence?
  }

  /** The fence state before line `n`. */
  function FenceBefore(lines: seq<Line>, n: nat): Fence
    requires n <= |lines|
  {
    if n == 0 then NoFence else Turn(FenceBefore(lines, n - 1), lines[n - 1].marker)
  }

  /** The slugs of the headings outside fences among the first `n` lines, in order. */
  function Slugs(lines: seq<Line>, n: nat): seq<string>
    requires n <= |lines|
  {
    if n == 0 then []
    else
      var line := lines[n - 1];
      if IsRead(line, FenceBefore(lines, n - 1)) && line.slug.Some?
      then Slugs(lines, n - 1) + [line.slug.value] else Slugs(lines, n - 1)
  }

  /** The explicit identifiers outside fences among the first `n` lines. */
  function Explicit(lines: seq<Line>, n: nat): set<string>
    requires n <= |lines|
  {
    if n == 0 then {}
    else Explicit(lines, n - 1) + if IsRead(lines[n - 1], FenceBefore(lines, n - 1)) then lines[n - 1].ids else {}
  }

  /** The identifier of each heading, in order: the first free name after those before it. */
  function Ids(slugs: seq<string>): (r: seq<string>)
    ensures |r| == |slugs|
    decreases |slugs|
  {
    if slugs == [] then []
    else
      var n := |slugs| - 1;
      var before := Ids(slugs[..n]);
      before + [FreeName(slugs[n], Members(before))]
  }

  lemma NoIds()
    ensures Ids([]) == [] && Members(Ids([])) == {}
  {
  }

  /** The scan for anchors: one pass with the fence state, the names used and the result. */
  method HeadingIds(lines: seq<Line>) returns (result: set<string>, used: set<string>)
    ensures used == Members(Ids(Slugs(lines, |lines|)))
    ensures result == Explicit(lines, |lines|) + used
  {
    hide Ids, FreeName, Members;
    result, used := {}, {};
    NoIds();
    var fence := NoFence;
    for k := 0 to |lines|
      invariant fence == FenceBefore(lines, k)
      invariant used == Members(Ids(Slugs(lines, k)))
      invariant result == Explicit(lines, k) + used
    {
      var line := lines[k];
      if line.marker.Fence? {
        if fence.NoFence? {
          fence := line.marker;
        } else if line.marker.mark == fence.mark && line.marker.length >= fence.length {
          fence := NoFence;
        }
        continue;
      }
      if fence.Fence? {
        continue;
      }
      result := result + line.ids;
      if line.slug.Some? {
        var candidate := FindFree(line.slug.value, used);
        NextId(Slugs(lines, k), line.slug.value);
        used := used + {candidate};
        result := result + {candidate};
      }
    }
  }

  lemma NextId(slugs: seq<string>, slug: string)
    ensures Ids(slugs + [slug]) == Ids(slugs) + [FreeName(slug, Members(Ids(slugs)))]
    ensures Members(Ids(slugs + [slug])) == Members(Ids(slugs)) + {FreeName(slug, Members(Ids(slugs)))}
  {
    assert (slugs + [slug])[..|slugs|] == slugs;
  }

  // --------------------------------------------------------------- theorems

  /** Headings appended later leave the earlier identifiers as they are. */
  lemma {:induction false} EarlierIdsStay(slugs: seq<string>, n: nat)
    requires n <= |slugs|
    ensures Ids(slugs)[..n] == Ids(slugs[..n])
    decreases |slugs|
  {
    if n < |slugs| {
      var m := |slugs| - 1;
      assert slugs[..m][..n] == slugs[..n];
      EarlierIdsStay(slugs[..m], n);
      assert Ids(slugs)[..m][..n] == Ids(slugs)[..n];
    } else {
      assert slugs[..n] == slugs;
    }
  }

  /** Every heading gets an identifier of its own, made with the least suffix not taken by an
      earlier one: no more tries than earlier headings plus one. */
  lemma IdsAreLeastFree(slugs: seq<string>, k: nat)
    requires k < |slugs|
    ensures exists n ::
              0 <= n <= k && Ids(slugs)[k] == Candidate(slugs[k], n) && Ids(slugs)[k] !in Ids(slugs)[..k]
              && forall m :: 0 <= m < n ==> Candidate(slugs[k], m) in Ids(slugs)[..k]
  {
    EarlierIdsStay(slugs, k);
    EarlierIdsStay(slugs, k + 1);
    assert slugs[..k + 1][..k] == slugs[..k];
    var before := Ids(slugs[..k]);
    assert Ids(slugs)[k] == Ids(slugs)[..k + 1][k];
    var n := FreeFrom(slugs[k], Members(before), 0);
    DistinctSize(before);
    assert Ids(slugs)[k] == Candidate(slugs[k], n);
  }

  /** As many identifiers as headings. */
  lemma {:induction false} IdsAreDistinct(slugs: seq<string>)
    ensures Distinct(Ids(slugs)) && |Members(Ids(slugs))| == |slugs|
    decreases |slugs|
  {
    if slugs != [] {
      var n := |slugs| - 1;
      IdsAreDistinct(slugs[..n]);
      assert slugs == slugs[..n] + [slugs[n]];
      NextId(slugs[..n], slugs[n]);
      var before := Ids(slugs[..n]);
      assert FreeName(slugs[n], Members(before)) !in before;
    }
    DistinctSize(Ids(slugs));
  }

  lemma SuffixOne(slug: string)
    ensures Candidate(slug, 0) == slug && Candidate(slug, 1) == slug + "-1" && Candidate(slug, 2) == slug + "-2"
  {
    assert Decimal(1) == "1" && Decimal(2) == "2";
    assert slug + "-" + "1" == slug + "-1" && slug + "-" + "2" == slug + "-2";
  }

  /** Headings that already look like suffixed ones are no exception: the second `one` takes
      `one-1`, and a heading `one-1` after it is suffixed in turn. */
  lemma LookAlikeAfter()
    ensures Ids(["one", "one", "one-1"]) == ["one", "one-1", "one-1-1"]
  {
    hide Ids, Candidate;
    var one, dashed := "one", "one-1";
    SuffixOne(one);
    SuffixOne(dashed);
    NoIds();
    NextFree([], one, 0);
    assert [] + [one] == [one];
    NextFree([one], one, 1);
    assert [one] + [one] == [one, one] && [one] + [dashed] == [one, dashed];
    assert dashed + "-1" == "one-1-1" && one + "-1" == dashed;
    NextFree([one, one], dashed, 1);
    assert [one, one] + [dashed] == [one, one, dashed] && [one, dashed] + ["one-1-1"] == [one, dashed, "one-1-1"];
  }

  lemma NextFree(slugs: seq<string>, slug: string, n: nat)
    requires Candidate(slug, n) !in Ids(slugs) && forall m :: 0 <= m < n ==> Candidate(slug, m) in Ids(slugs)
    ensures Ids(slugs + [slug]) == Ids(slugs) + [Candidate(slug, n)]
  {
    NextId(slugs, slug);
    var k := FreeFrom(slug, Members(Ids(slugs)), 0);
    assert k == n;
  }
}
