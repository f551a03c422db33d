/**
 * The experience timeline: the year label of an entry, the distinct labels that get a
 * marker, where each marker sits, and which bullet points get the achievement badge.
 */
module Experience {
  import opened JsStrings
  import opened JsCollections
  import opened PortfolioData

  /**
   * `duration.split(' ')[0].split('-')[0]`: the longest prefix of the duration that holds
   * neither a space nor a `-`.
   */
  function YearLabel(duration: string): (y: string)
    ensures y <= duration && ' ' !in y && '-' !in y
    ensures y == duration || duration[|y|] == ' ' || duration[|y|] == '-'
  {
    var word := FirstPiece(duration, ' ');
    var y := FirstPiece(word, '-');
    assert y != word ==> duration[|y|] == word[|y|];
    y
  }

  /**
   * A duration whose first separator is at `n` is labelled with the text before it, so
   * `"2023-2024 Remote"` is labelled `"2023"` and `"March 2025 ..."` is labelled `"March"`.
   */
  lemma LabelBeforeSeparator(duration: string, n: nat)
    requires n < |duration| && (duration[n] == ' ' || duration[n] == '-')
    requires forall k :: 0 <= k < n ==> duration[k] != ' ' && duration[k] != '-'
    ensures YearLabel(duration) == duration[..n]
  {
  }

  /** The labels of the entries, in data order. */
  function YearLabels(exps: seq<ExperienceEntry>): (r: seq<string>)
    ensures |r| == |exps| && forall i :: 0 <= i < |exps| ==> r[i] == YearLabel(exps[i].duration)
  {
    seq(|exps|, i requires 0 <= i < |exps| => YearLabel(exps[i].duration))
  }

  /** `[...new Set(years)]` */
  function UniqueYears(exps: seq<ExperienceEntry>): seq<string> {
    Dedupe(YearLabels(exps))
  }

  /**
   * The unique labels contain every entry's label and nothing else, hold no label twice,
   * and keep the order in which the labels first occur.
   */
  lemma UniqueYearsSpec(exps: seq<ExperienceEntry>)
    ensures var u := UniqueYears(exps);
            && (forall i :: 0 <= i < |exps| ==> YearLabel(exps[i].duration) in u)
            && (forall y :: y in u ==> y in YearLabels(exps))
            && NoDuplicates(u)
            && (forall a, b :: 0 <= a < b < |u| ==> FirstIndex(YearLabels(exps), u[a]) < FirstIndex(YearLabels(exps), u[b]))
            && |u| <= |exps|
  {
    var ys := YearLabels(exps);
    DedupeSpec(ys);
    DedupeLength(ys);
    forall i | 0 <= i < |exps| ensures YearLabel(exps[i].duration) in UniqueYears(exps) {
      assert ys[i] in ys;
    }
  }

  /** Entries whose labels are already distinct get one marker each, in data order. */
  lemma UniqueYearsOfDistinct(exps: seq<ExperienceEntry>)
    requires NoDuplicates(YearLabels(exps))
    ensures UniqueYears(exps) == YearLabels(exps)
  {
    DedupeOfDistinct(YearLabels(exps));
  }

  lemma FirstShippedLabel()
    ensures YearLabel(Experiences[0].duration) == "March"
  {
    LabelBeforeSeparator(Experiences[0].duration, 5);
  }

  lemma SecondShippedLabel()
    ensures YearLabel(Experiences[1].duration) == "July"
  {
    var d := Experiences[1].duration;
    assert d == "July 2024 \U{2013} Dec 2024";
    LabelBeforeSeparator(d, 4);
  }

  lemma TwoLabels(exps: seq<ExperienceEntry>, a: string, b: string)
    requires |exps| == 2 && YearLabel(exps[0].duration) == a && YearLabel(exps[1].duration) == b
    ensures YearLabels(exps) == [a, b]
  {
  }

  /**
   * The shipped durations start with a month name and use an en dash, so the labels are
   * the month names `March` and `July`, not years.
   */
  lemma ShippedYearLabels()
    ensures YearLabels(Experiences) == ["March", "July"]
  {
    FirstShippedLabel();
    SecondShippedLabel();
    TwoLabels(Experiences, "March", "July");
  }

  /** Two distinct labels give two markers, at 0% and at 100%. */
  lemma TwoDistinctLabels(exps: seq<ExperienceEntry>, a: string, b: string)
    requires YearLabels(exps) == [a, b] && a != b
    ensures UniqueYears(exps) == [a, b]
    ensures YearMarkers(UniqueYears(exps)) == [Marker(a, Finite(0.0)), Marker(b, Finite(100.0))]
  {
    UniqueYearsOfDistinct(exps);
  }

  /** They are distinct, so the timeline gets two markers, `March` at 0% and `July` at 100%. */
  lemma ShippedYearMarkers()
    ensures UniqueYears(Experiences) == ["March", "July"]
    ensures YearMarkers(UniqueYears(Experiences)) == [Marker("March", Finite(0.0)), Marker("July", Finite(100.0))]
  {
    ShippedYearLabels();
    assert "March"[0] != "July"[0];
    TwoDistinctLabels(Experiences, "March", "July");
  }

  // ---------------------------------------------------------------------------
  // Year markers
  // ---------------------------------------------------------------------------

  /** A CSS percentage as JavaScript computes it; `0/0` is `NaN`. */
  datatype Percent = NaN | Finite(value: real)

  /** `(index / (count - 1)) * 100`; with a single marker this is `0/0`. */
  function MarkerLeft(index: nat, count: nat): (p: Percent)
    requires index < count
    ensures p.NaN? <==> count == 1
  {
    if count == 1 then NaN else Finite(index as real / (count - 1) as real * 100.0)
  }

  datatype Marker = Marker(year: string, left: Percent)

  /** One marker per unique label, in order, at its position along the timeline. */
  function YearMarkers(years: seq<string>): (ms: seq<Marker>)
    ensures |ms| == |years|
    ensures forall i :: 0 <= i < |years| ==> ms[i].year == years[i]
  {
    seq(|years|, i requires 0 <= i < |years| => Marker(years[i], MarkerLeft(i, |years|)))
  }

  /** Dividing by a positive `d` and scaling by 100 keeps order and signs. */
  lemma ScaledRatio(x: real, y: real, d: real)
    requires d > 0.0 && 0.0 <= x <= y
    ensures 0.0 <= x / d * 100.0 <= y / d * 100.0
    ensures x < y ==> x / d * 100.0 < y / d * 100.0
  {
    assert (x / d) * d == x;
    assert (y / d) * d == y;
  }

  /**
   * With two or more markers the first sits at 0%, the last at 100%, every one inside
   * [0, 100], and each strictly to the right of the one before.
   */
  lemma MarkerPositions(count: nat)
    requires count >= 2
    ensures MarkerLeft(0, count) == Finite(0.0)
    ensures MarkerLeft(count - 1, count) == Finite(100.0)
    ensures forall i :: 0 <= i < count ==>
              MarkerLeft(i, count).Finite? && 0.0 <= MarkerLeft(i, count).value <= 100.0
    ensures forall i, j :: 0 <= i < j < count ==> MarkerLeft(i, count).value < MarkerLeft(j, count).value
  {
    var d := (count - 1) as real;
    assert d / d == 1.0;
    forall i | 0 <= i < count
      ensures 0.0 <= MarkerLeft(i, count).value <= 100.0
    {
      ScaledRatio(i as real, d, d);
    }
    forall i, j | 0 <= i < j < count
      ensures MarkerLeft(i, count).value < MarkerLeft(j, count).value
    {
      ScaledRatio(i as real, j as real, d);
    }
  }

  /** A lone marker gets no valid position. */
  lemma SingleMarkerIsNaN()
    ensures MarkerLeft(0, 1) == NaN
  {
  }

  // ---------------------------------------------------------------------------
  // Bullet points and the summary
  // ---------------------------------------------------------------------------

  /** The achievement badge: the lower-cased point mentions `lead`, `achieve` or `success`. */
  predicate IsAchievement(point: string) {
    var p := Lower(point);
    Includes(p, "lead") || Includes(p, "achieve") || Includes(p, "success")
  }

  /** Lower-casing is idempotent. */
  lemma LowerIdempotent(s: string)
    ensures Lower(Lower(s)) == Lower(s)
  {
  }

  /** The badge test ignores case: a point and its lower-cased form agree. */
  lemma AchievementIgnoresCase(point: string)
    ensures IsAchievement(Lower(point)) == IsAchievement(point)
  {
    LowerIdempotent(point);
  }

  /** One of the badge's keywords starts at position `i` of `p`. */
  predicate KeywordAt(p: string, i: int) {
    OccursAt(p, "lead", i) || OccursAt(p, "achieve", i) || OccursAt(p, "success", i)
  }

  /** A point gets the badge exactly when a keyword occurs somewhere in its lower-cased text. */
  lemma AchievementSpec(point: string)
    ensures IsAchievement(point) <==> exists i :: KeywordAt(Lower(point), i)
  {
    var p := Lower(point);
    IncludesAt(p, "lead");
    IncludesAt(p, "achieve");
    IncludesAt(p, "success");
    if IsAchievement(point) {
      var i :| OccursAt(p, "lead", i) || OccursAt(p, "achieve", i) || OccursAt(p, "success", i);
      assert KeywordAt(p, i);
    }
    if i :| KeywordAt(p, i) {
      assert OccursAt(p, "lead", i) || OccursAt(p, "achieve", i) || OccursAt(p, "success", i);
    }
  }

  /** So a point that says `LEAD` in capitals still gets the badge. */
  lemma CapitalLeadIsAchievement(point: string, i: nat)
    requires OccursAt(point, "LEAD", i)
    ensures IsAchievement(point)
  {
    var p := Lower(point);
    assert point[i] == 'L' && point[i + 1] == 'E' && point[i + 2] == 'A' && point[i + 3] == 'D' by {
      assert point[i..i + 4] == "LEAD";
    }
    assert p[i..i + 4] == "lead";
    assert OccursAt(p, "lead", i);
    IncludesAt(p, "lead");
    assert Includes(p, "lead");
  }

  /** The roles stat: the number of entries followed by `+`. */
  function RolesStat(exps: seq<ExperienceEntry>): (r: string)
    ensures |r| >= 2 && r[|r| - 1] == '+'
    ensures forall k :: 0 <= k < |r| - 1 ==> IsDigit(r[k])
    ensures DecimalValue(r[..|r| - 1]) == |exps|
  {
    NatToStringRoundTrip(|exps|);
    var digits := NatToString(|exps|);
    var r := digits + "+";
    assert r[..|r| - 1] == digits;
    r
  }
}
