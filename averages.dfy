/** The individual averages of `currentData` and the synthetic overall row:
    `calculateIndividualAverages`, `updateGeneralAverage`,
    `recalculateGeneralAverage` and the first half of `recalculateAll`, as
    functions over the list of records. */
module Averages {
  import opened Wrappers
  import opened Grades

  const GeneralDesignation: string := "Moyenne Générale Individuelle"

  /** A record's average refreshed from its scores; the overall row is skipped. */
  function WithAverage(m: Module): Module
  {
    if m.isGeneral then m else m.(moyenne := CalculateModuleAverage(m))
  }

  /** The `forEach` of `calculateIndividualAverages`: every non-general record
      gets its module average, and nothing else changes. */
  function WithAverages(data: seq<Module>): (r: seq<Module>)
    ensures |r| == |data|
    ensures forall i | 0 <= i < |data| :: r[i] == WithAverage(data[i])
  {
    seq(|data|, i requires 0 <= i < |data| => WithAverage(data[i]))
  }

  /** A record enters the overall average when it is a real module with an average. */
  predicate Counted(m: Module)
  {
    !m.isGeneral && m.moyenne.Some?
  }

  function Contribution(m: Module): real
  {
    if Counted(m) then m.moyenne.value * m.credits as real else 0.0
  }

  function CreditOf(m: Module): int
  {
    if Counted(m) then m.credits else 0
  }

  /** Σ moyenne·credits over the counted records, accumulated left to right. */
  function WeightedSum(data: seq<Module>): real
  {
    if data == [] then 0.0 else WeightedSum(data[..|data| - 1]) + Contribution(data[|data| - 1])
  }

  /** Σ credits over the counted records. */
  function CreditSum(data: seq<Module>): int
  {
    if data == [] then 0 else CreditSum(data[..|data| - 1]) + CreditOf(data[|data| - 1])
  }

  /** The weighted mean, or 0 when no credit was counted. */
  function GeneralAverage(totalWeightedScore: real, totalCredits: int): real
  {
    if totalCredits > 0 then totalWeightedScore / totalCredits as real else 0.0
  }

  /** The overall row written by `updateGeneralAverage`. */
  function GeneralRecord(totalWeightedScore: real, totalCredits: int): (g: Module)
    ensures g.isGeneral && !g.hasRattrapage && g.noteExam.None?
    ensures g.credits == totalCredits
    ensures g.moyenne == Some(GeneralAverage(totalWeightedScore, totalCredits))
  {
    Module(GeneralDesignation, "", None, None, None, None, false,
           totalCredits, Some(GeneralAverage(totalWeightedScore, totalCredits)), true)
  }

  /** `findIndex(m => m.isGeneral)`. */
  function FindGeneral(data: seq<Module>): (r: Option<nat>)
    ensures r.Some? ==> r.value < |data| && data[r.value].isGeneral
    ensures r.Some? ==> forall j | 0 <= j < r.value :: !data[j].isGeneral
    ensures r.None? ==> forall j | 0 <= j < |data| :: !data[j].isGeneral
  {
    if data == [] then None
    else if data[0].isGeneral then Some(0)
    else match FindGeneral(data[1..]) {
      case None => None
      case Some(i) => Some(i + 1)
    }
  }

  /** `updateGeneralAverage`: the first overall row is replaced in place, or
      one is appended when there is none. */
  function UpdateGeneralAverage(data: seq<Module>, totalWeightedScore: real, totalCredits: int): seq<Module>
  {
    var g := GeneralRecord(totalWeightedScore, totalCredits);
    match FindGeneral(data) {
      case Some(i) => data[i := g]
      case None => data + [g]
    }
  }

  /** `calculateIndividualAverages`. */
  function IndividualAverages(data: seq<Module>): seq<Module>
  {
    var d := WithAverages(data);
    UpdateGeneralAverage(d, WeightedSum(d), CreditSum(d))
  }

  /** `recalculateGeneralAverage`: the same sums over the averages as they
      stand, without refreshing them. */
  function RecalculateGeneralAverage(data: seq<Module>): seq<Module>
  {
    UpdateGeneralAverage(data, WeightedSum(data), CreditSum(data))
  }

  /** `currentData.filter(m => !m.isGeneral)`. */
  function StripGeneral(data: seq<Module>): (r: seq<Module>)
    ensures forall i | 0 <= i < |r| :: !r[i].isGeneral
    ensures forall m | m in r :: m in data
    ensures forall m | m in data && !m.isGeneral :: m in r
  {
    if data == [] then []
    else if data[0].isGeneral then StripGeneral(data[1..])
    else [data[0]] + StripGeneral(data[1..])
  }

  /** Every non-overall record is kept as often as it occurs; overall rows
      are all dropped. */
  lemma {:induction false} StripGeneralCounts(data: seq<Module>, m: Module)
    ensures multiset(StripGeneral(data))[m] == if m.isGeneral then 0 else multiset(data)[m]
  {
    if data != [] {
      assert data == [data[0]] + data[1..];
      StripGeneralCounts(data[1..], m);
    }
  }

  /** The filter keeps the order of the records it keeps: stripping a
      concatenation strips each part. */
  lemma {:induction false} StripGeneralConcat(a: seq<Module>, b: seq<Module>)
    ensures StripGeneral(a + b) == StripGeneral(a) + StripGeneral(b)
  {
    if a == [] {
      assert a + b == b;
    } else {
      assert (a + b)[0] == a[0] && (a + b)[1..] == a[1..] + b;
      StripGeneralConcat(a[1..], b);
    }
  }

  /** The records part of `recalculateAll`. */
  function RecalculateRecords(data: seq<Module>): seq<Module>
  {
    IndividualAverages(StripGeneral(data))
  }

  predicate NoGeneral(data: seq<Module>)
  {
    forall i | 0 <= i < |data| :: !data[i].isGeneral
  }

  predicate AtMostOneGeneral(data: seq<Module>)
  {
    forall i, j | 0 <= i < j < |data| :: !(data[i].isGeneral && data[j].isGeneral)
  }

  /** Index `g` holds the only overall row. */
  predicate OnlyGeneralAt(data: seq<Module>, g: nat)
  {
    g < |data| && data[g].isGeneral && forall j | 0 <= j < |data| && j != g :: !data[j].isGeneral
  }

  // ---------------------------------------------------------------------------
  // Properties

  /** With at most one overall row before, there is exactly one after: the old
      one replaced where it stood, or a new one at the end; every other record
      is kept as it was. */
  lemma UpdateKeepsOneGeneral(data: seq<Module>, ws: real, tc: int)
    requires AtMostOneGeneral(data)
    ensures var r := UpdateGeneralAverage(data, ws, tc);
      var g := if FindGeneral(data).Some? then FindGeneral(data).value else |data|;
      && OnlyGeneralAt(r, g)
      && r[g] == GeneralRecord(ws, tc)
      && |r| == (if FindGeneral(data).Some? then |data| else |data| + 1)
      && forall j | 0 <= j < |data| && j != g :: r[j] == data[j]
  {
  }

  /** Refreshing the averages never reclassifies a record. */
  lemma WithAveragesKeepOneGeneral(data: seq<Module>)
    requires AtMostOneGeneral(data)
    ensures AtMostOneGeneral(WithAverages(data))
  {
    var d := WithAverages(data);
    forall i, j | 0 <= i < j < |d| ensures !(d[i].isGeneral && d[j].isGeneral) {
      assert d[i].isGeneral == data[i].isGeneral && d[j].isGeneral == data[j].isGeneral;
    }
  }

  /** `calculateIndividualAverages` leaves exactly one overall row, holding
      the weighted mean of the refreshed averages. */
  lemma IndividualAveragesOneGeneral(data: seq<Module>)
    requires AtMostOneGeneral(data)
    ensures var r := IndividualAverages(data);
      var d := WithAverages(data);
      exists g | 0 <= g < |r| ::
        && OnlyGeneralAt(r, g)
        && r[g].moyenne == Some(GeneralAverage(WeightedSum(d), CreditSum(d)))
  {
    var d := WithAverages(data);
    WithAveragesKeepOneGeneral(data);
    UpdateKeepsOneGeneral(d, WeightedSum(d), CreditSum(d));
    var g := if FindGeneral(d).Some? then FindGeneral(d).value else |d|;
    assert OnlyGeneralAt(IndividualAverages(data), g);
  }

  /** Replacing one record by one of the same kind keeps at most one overall row. */
  lemma ReplaceKeepsOneGeneral(data: seq<Module>, i: nat, m: Module)
    requires AtMostOneGeneral(data) && i < |data| && m.isGeneral == data[i].isGeneral
    ensures AtMostOneGeneral(data[i := m])
  {
    var r := data[i := m];
    forall j, k | 0 <= j < k < |r| ensures !(r[j].isGeneral && r[k].isGeneral) {
      assert r[j].isGeneral == data[j].isGeneral && r[k].isGeneral == data[k].isGeneral;
    }
  }

  /** Sums over one more record. */
  lemma SumsSnoc(data: seq<Module>, m: Module)
    ensures WeightedSum(data + [m]) == WeightedSum(data) + Contribution(m)
    ensures CreditSum(data + [m]) == CreditSum(data) + CreditOf(m)
  {
    assert (data + [m])[..|data|] == data;
  }

  /** Averages in [0, 20] and non-negative credits bound the weighted sum by
      20 times the credit sum. */
  lemma {:induction false} WeightedSumBounds(data: seq<Module>)
    requires forall i | 0 <= i < |data| && Counted(data[i]) ::
      0.0 <= data[i].moyenne.value <= 20.0 && data[i].credits >= 0
    ensures 0 <= CreditSum(data)
    ensures 0.0 <= WeightedSum(data) <= 20.0 * CreditSum(data) as real
  {
    if data != [] {
      var init, m := data[..|data| - 1], data[|data| - 1];
      assert data == init + [m];
      WeightedSumBounds(init);
      SumsSnoc(init, m);
      ContributionBounds(m);
      SumStep(WeightedSum(init), CreditSum(init), Contribution(m), CreditOf(m));
    }
  }

  lemma ContributionBounds(m: Module)
    requires Counted(m) ==> 0.0 <= m.moyenne.value <= 20.0 && m.credits >= 0
    ensures 0 <= CreditOf(m)
    ensures 0.0 <= Contribution(m) <= 20.0 * CreditOf(m) as real
  {
    if Counted(m) {
      var x, c := m.moyenne.value, m.credits;
      ProductBounds(x, c);
      assert Contribution(m) == x * c as real && CreditOf(m) == c;
    }
  }

  /** A weighted mean of values in [0, 20] lies in [0, 20]. */
  lemma GeneralAverageInRange(data: seq<Module>)
    requires forall i | 0 <= i < |data| && Counted(data[i]) ::
      0.0 <= data[i].moyenne.value <= 20.0 && data[i].credits >= 0
    ensures 0.0 <= GeneralAverage(WeightedSum(data), CreditSum(data)) <= 20.0
  {
    WeightedSumBounds(data);
    var ws, tc := WeightedSum(data), CreditSum(data);
    if tc > 0 {
      QuotientBounds(ws, tc as real);
    }
  }

  /** With every module's scores in [0, 20] and credits non-negative, the
      overall average `calculateIndividualAverages` writes is in [0, 20]. */
  lemma IndividualGeneralInRange(data: seq<Module>)
    requires forall i | 0 <= i < |data| :: ScoresInRange(data[i]) && data[i].credits >= 0
    ensures var d := WithAverages(data);
      0.0 <= GeneralAverage(WeightedSum(d), CreditSum(d)) <= 20.0
  {
    var d := WithAverages(data);
    forall i | 0 <= i < |d| && Counted(d[i])
      ensures 0.0 <= d[i].moyenne.value <= 20.0 && d[i].credits >= 0
    {
      ModuleAverageInRange(data[i]);
    }
    GeneralAverageInRange(d);
  }

  /** Module averages do not depend on the stored average, so refreshing twice
      is refreshing once. */
  lemma WithAveragesIdempotent(data: seq<Module>)
    ensures WithAverages(WithAverages(data)) == WithAverages(data)
  {
    var d := WithAverages(data);
    forall i | 0 <= i < |data| ensures WithAverage(d[i]) == d[i] {
      assert CalculateModuleAverage(d[i]) == CalculateModuleAverage(data[i]);
    }
  }

  /** Stripping records that are all real modules keeps them all. */
  lemma {:induction false} StripNoGeneral(data: seq<Module>)
    requires NoGeneral(data)
    ensures StripGeneral(data) == data
  {
    if data != [] {
      StripNoGeneral(data[1..]);
    }
  }

  lemma {:induction false} StripAppendGeneral(data: seq<Module>, g: Module)
    requires NoGeneral(data) && g.isGeneral
    ensures StripGeneral(data + [g]) == data
  {
    if data == [] {
    } else {
      assert (data + [g])[1..] == data[1..] + [g];
      StripAppendGeneral(data[1..], g);
    }
  }

  /** On records with no overall row, `calculateIndividualAverages` appends it
      after the refreshed records. */
  lemma IndividualAveragesAppends(data: seq<Module>)
    requires NoGeneral(data)
    ensures var d := WithAverages(data);
      IndividualAverages(data) == d + [GeneralRecord(WeightedSum(d), CreditSum(d))]
  {
  }

  /** `recalculateAll` (records part) puts the overall row last, after every
      real module of the input with its average refreshed. */
  lemma RecalculateRecordsShape(data: seq<Module>)
    ensures var s := StripGeneral(data);
      var r := RecalculateRecords(data);
      && |r| == |s| + 1
      && OnlyGeneralAt(r, |s|)
      && r[..|s|] == WithAverages(s)
  {
    var s := StripGeneral(data);
    IndividualAveragesAppends(s);
  }

  /** Running `recalculateAll` a second time changes no record. */
  lemma RecalculateRecordsIdempotent(data: seq<Module>)
    ensures RecalculateRecords(RecalculateRecords(data)) == RecalculateRecords(data)
  {
    var s := StripGeneral(data);
    var d := WithAverages(s);
    var g := GeneralRecord(WeightedSum(d), CreditSum(d));
    IndividualAveragesAppends(s);
    StripAppendGeneral(d, g);
    WithAveragesIdempotent(s);
    IndividualAveragesAppends(d);
  }

  lemma WithAveragesCons(m: Module, rest: seq<Module>)
    ensures WithAverages([m] + rest) == [WithAverage(m)] + WithAverages(rest)
  {
  }

  lemma WithAverageTwice(m: Module)
    ensures WithAverage(WithAverage(m)) == WithAverage(m)
  {
    assert CalculateModuleAverage(WithAverage(m)) == CalculateModuleAverage(m);
  }

  /** Refreshing one real record's average before stripping and refreshing
      all of them makes no difference to the refreshed records. */
  lemma {:induction false} StripRefreshOne(data: seq<Module>, i: nat)
    requires i < |data| && !data[i].isGeneral
    ensures WithAverages(StripGeneral(data[i := WithAverage(data[i])])) == WithAverages(StripGeneral(data))
  {
    if i == 0 {
      StripRefreshHead(data);
    } else {
      var w, tail := WithAverage(data[i]), data[1..];
      UpdateBehindHead(data, i, w);
      StripRefreshOne(tail, i - 1);
      StripRefreshCons(data[0], tail[i - 1 := w], tail);
    }
  }

  /** Updating past the head updates the tail. */
  lemma UpdateBehindHead<T>(s: seq<T>, i: nat, x: T)
    requires 0 < i < |s|
    ensures s[1..][i - 1] == s[i]
    ensures s[i := x] == [s[0]] + s[1..][i - 1 := x]
    ensures s == [s[0]] + s[1..]
  {
  }

  lemma StripRefreshHead(data: seq<Module>)
    requires |data| > 0 && !data[0].isGeneral
    ensures WithAverages(StripGeneral(data[0 := WithAverage(data[0])])) == WithAverages(StripGeneral(data))
  {
    var w := WithAverage(data[0]);
    var rest := StripGeneral(data[1..]);
    assert data[0 := w] == [w] + data[1..];
    assert ([w] + data[1..])[1..] == data[1..];
    assert StripGeneral(data[0 := w]) == [w] + rest;
    assert StripGeneral(data) == [data[0]] + rest;
    WithAveragesCons(w, rest);
    WithAveragesCons(data[0], rest);
    WithAverageTwice(data[0]);
  }

  lemma StripRefreshCons(m: Module, a: seq<Module>, b: seq<Module>)
    requires WithAverages(StripGeneral(a)) == WithAverages(StripGeneral(b))
    ensures WithAverages(StripGeneral([m] + a)) == WithAverages(StripGeneral([m] + b))
  {
    assert ([m] + a)[1..] == a && ([m] + b)[1..] == b;
    if !m.isGeneral {
      WithAveragesCons(m, StripGeneral(a));
      WithAveragesCons(m, StripGeneral(b));
    }
  }

  /** The refresh `recalculateModule` does before calling `recalculateAll`
      is subsumed by it. */
  lemma RecalculateModuleSubsumed(data: seq<Module>, i: nat)
    requires i < |data| && !data[i].isGeneral
    ensures RecalculateRecords(data[i := WithAverage(data[i])]) == RecalculateRecords(data)
  {
    StripRefreshOne(data, i);
  }

  /** When the stored averages are current, `recalculateGeneralAverage` and
      `calculateIndividualAverages` agree. */
  lemma RecalculateGeneralAgrees(data: seq<Module>)
    requires WithAverages(data) == data
    ensures RecalculateGeneralAverage(data) == IndividualAverages(data)
  {
  }

  /** Credits 3, 2 and 5 with averages 10, 14 and 8: (30 + 28 + 40) / 10 = 9.8. */
  lemma GeneralAverageExample(a: Module, b: Module, c: Module)
    requires !a.isGeneral && !b.isGeneral && !c.isGeneral
    requires a.credits == 3 && a.moyenne == Some(10.0)
    requires b.credits == 2 && b.moyenne == Some(14.0)
    requires c.credits == 5 && c.moyenne == Some(8.0)
    ensures GeneralAverage(WeightedSum([a, b, c]), CreditSum([a, b, c])) == 9.8
  {
    assert Contribution(a) == 30.0 && Contribution(b) == 28.0 && Contribution(c) == 40.0;
    assert CreditOf(a) == 3 && CreditOf(b) == 2 && CreditOf(c) == 5;
    assert [a] == [] + [a];
    SumsSnoc([], a);
    assert [a, b] == [a] + [b];
    SumsSnoc([a], b);
    assert [a, b, c] == [a, b] + [c];
    SumsSnoc([a, b], c);
    assert WeightedSum([a, b, c]) == 98.0 && CreditSum([a, b, c]) == 10;
  }
}
