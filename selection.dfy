/** `parse_selection_input(input_str, max_value)`: the course-number prompt
    accepts comma-separated 1-based numbers and inclusive ranges `a-b` and
    yields the ascending list of the 0-based indices they cover, or `None`
    for blank or malformed input and for anything out of `1..max_value`. */
module Selection {
  import opened Text

  /** `range(lo, hi)` as a set. */
  function Range(lo: int, hi: int): (s: set<int>)
    ensures forall k :: k in s <==> lo <= k < hi
    decreases hi - lo
  {
    if lo >= hi then {} else {lo} + Range(lo + 1, hi)
  }

  /** The 0-based indices one comma-separated part selects, or `None` where
      the source gives up on the whole input (a `ValueError` from `int`, a
      number or range outside `1..max`, a range whose start exceeds its end). */
  function PartIndices(part: string, max: int): (r: Option<set<int>>)
    ensures r.Some? ==> forall k :: k in r.value ==> 0 <= k < max
  {
    var p := Strip(part);
    if '-' in p then
      var (a, b) := SplitOnce(p, '-');
      SpanIndices(ParseInt(Strip(a)), ParseInt(Strip(b)), max)
    else
      SingleIndices(ParseInt(p), max)
  }

  /** A range `start-end`: both ends must be integers with
      `1 <= start <= end <= max`; it selects `start - 1 .. end - 1`. */
  function SpanIndices(start: Option<int>, end: Option<int>, max: int): (r: Option<set<int>>)
    ensures r.Some? ==> forall k :: k in r.value ==> 0 <= k < max
  {
    match (start, end)
    case (Some(x), Some(y)) =>
      if x < 1 || y > max || x > y then None else Some(Range(x - 1, y))
    case _ => None
  }

  /** A single number `n` with `1 <= n <= max` selects `n - 1`. */
  function SingleIndices(num: Option<int>, max: int): (r: Option<set<int>>)
    ensures r.Some? ==> forall k :: k in r.value ==> 0 <= k < max
  {
    match num
    case Some(n) => if n < 1 || n > max then None else Some({n - 1})
    case None => None
  }

  /** The outcome of each part, in order. */
  function Outcomes(parts: seq<string>, max: int): (rs: seq<Option<set<int>>>)
    ensures |rs| == |parts|
  {
    if parts == [] then []
    else Outcomes(parts[..|parts| - 1], max) + [PartIndices(parts[|parts| - 1], max)]
  }

  lemma {:induction false} OutcomesAt(parts: seq<string>, max: int, k: nat)
    requires k < |parts|
    ensures Outcomes(parts, max)[k] == PartIndices(parts[k], max)
  {
    if k < |parts| - 1 {
      OutcomesAt(parts[..|parts| - 1], max, k);
    }
  }

  /** The indices of all parts together, or `None` as soon as one part fails. */
  function Combine(rs: seq<Option<set<int>>>): Option<set<int>>
  {
    if rs == [] then Some({})
    else match Combine(rs[..|rs| - 1])
      case None => None
      case Some(s) =>
        match rs[|rs| - 1]
        case None => None
        case Some(t) => Some(s + t)
  }

  /** The set of indices the whole input selects, or `None`. */
  function Selected(input: string, max: int): Option<set<int>>
  {
    if Strip(input) == [] then None else Combine(Outcomes(Split(input, ','), max))
  }

  predicate Increasing(xs: seq<int>)
  {
    forall i, j :: 0 <= i < j < |xs| ==> xs[i] < xs[j]
  }

  /** `sorted(...)` of the members of `s` in `[lo, hi)`. */
  function Ascending(s: set<int>, lo: int, hi: int): (r: seq<int>)
    ensures Increasing(r)
    ensures forall k :: 0 <= k < |r| ==> lo <= r[k] < hi
    ensures forall k :: k in r <==> k in s && lo <= k < hi
    decreases hi - lo
  {
    if lo >= hi then []
    else (if lo in s then [lo] else []) + Ascending(s, lo + 1, hi)
  }

  /** The prompt parser: blank input is refused; otherwise the indices the
      parts select are gathered and returned sorted. */
  method ParseSelection(input: string, max: int) returns (r: Option<seq<int>>)
    ensures r.None? <==> Selected(input, max).None?
    ensures r.Some? ==> Increasing(r.value)
    ensures r.Some? ==> forall k :: 0 <= k < |r.value| ==> 0 <= r.value[k] < max
    ensures r.Some? ==> forall k :: k in r.value <==> k in Selected(input, max).value
  {
    if Strip(input) == [] {
      SelectedBlank(input, max);
      return None;
    }
    var parts := Split(input, ',');
    var indices := Gather(parts, max);
    SelectedOfParts(input, max);
    if indices.None? {
      return None;
    }
    r := Some(Ascending(indices.value, 0, max));
  }

  lemma SelectedBlank(input: string, max: int)
    requires Strip(input) == []
    ensures Selected(input, max).None?
  {
  }

  lemma SelectedOfParts(input: string, max: int)
    requires Strip(input) != []
    ensures Selected(input, max) == Combine(Outcomes(Split(input, ','), max))
  {
  }

  /** The loop over the comma-separated parts: each part's indices are added
      to the set, and the first failing part ends the parse. */
  method Gather(parts: seq<string>, max: int) returns (r: Option<set<int>>)
    ensures r == Combine(Outcomes(parts, max))
    ensures r.Some? ==> forall k :: k in r.value ==> 0 <= k < max
  {
    var indices: set<int> := {};
    var i := 0;
    while i < |parts|
      invariant 0 <= i <= |parts|
      invariant Combine(Outcomes(parts[..i], max)) == Some(indices)
      invariant forall k :: k in indices ==> 0 <= k < max
    {
      var part := PartIndices(parts[i], max);
      if part.None? {
        OutcomesFail(parts, max, i);
        return None;
      }
      GatherStep(parts, max, i, indices);
      indices := indices + part.value;
      i := i + 1;
    }
    assert parts[..i] == parts;
    r := Some(indices);
  }

  lemma GatherStep(parts: seq<string>, max: int, i: nat, indices: set<int>)
    requires i < |parts| && PartIndices(parts[i], max).Some?
    requires Combine(Outcomes(parts[..i], max)) == Some(indices)
    requires forall k :: k in indices ==> 0 <= k < max
    ensures Combine(Outcomes(parts[..i + 1], max)) == Some(indices + PartIndices(parts[i], max).value)
    ensures forall k :: k in indices + PartIndices(parts[i], max).value ==> 0 <= k < max
  {
    OutcomesSnoc(parts, i, max);
  }

  /** A failing part fails the whole selection, whatever follows it. */
  lemma OutcomesFail(parts: seq<string>, max: int, i: nat)
    requires i < |parts| && PartIndices(parts[i], max).None?
    ensures Combine(Outcomes(parts, max)).None?
  {
    OutcomesNone(parts, max);
  }

  lemma SelectedUnfold(input: string, max: int)
    ensures Selected(input, max) == if Strip(input) == [] then None else Combine(Outcomes(Split(input, ','), max))
  {
  }

  lemma OutcomesSnoc(parts: seq<string>, i: nat, max: int)
    requires i < |parts|
    ensures Combine(Outcomes(parts[..i + 1], max)) ==
      match (Combine(Outcomes(parts[..i], max)), PartIndices(parts[i], max))
      case (Some(s), Some(t)) => Some(s + t)
      case _ => None
  {
    assert parts[..i + 1][..i] == parts[..i];
    var rs := Outcomes(parts[..i + 1], max);
    assert rs == Outcomes(parts[..i], max) + [PartIndices(parts[i], max)];
    assert rs[..i] == Outcomes(parts[..i], max);
  }

  /** The parts fail together exactly when one of them fails. */
  lemma {:induction false} CombineNone(rs: seq<Option<set<int>>>)
    ensures Combine(rs).None? <==> exists k :: 0 <= k < |rs| && rs[k].None?
  {
    if rs != [] {
      var n := |rs| - 1;
      var init := rs[..n];
      CombineNone(init);
      if Combine(rs).None? && Combine(init).None? {
        var k :| 0 <= k < |init| && init[k].None?;
        assert rs[k] == init[k];
      }
      if exists k :: 0 <= k < |rs| && rs[k].None? {
        var k :| 0 <= k < |rs| && rs[k].None?;
        if k < n {
          assert init[k] == rs[k];
        }
      }
    }
  }

  /** On success, an index is selected exactly when some part selects it. */
  lemma {:induction false} CombineMembers(rs: seq<Option<set<int>>>, i: int)
    requires Combine(rs).Some?
    ensures forall k :: 0 <= k < |rs| ==> rs[k].Some?
    ensures i in Combine(rs).value <==> exists k :: 0 <= k < |rs| && i in rs[k].value
  {
    if rs != [] {
      var n := |rs| - 1;
      var init := rs[..n];
      CombineMembers(init, i);
      assert forall k :: 0 <= k < n ==> init[k] == rs[k];
      if i in Combine(rs).value && i !in rs[n].value {
        var k :| 0 <= k < |init| && i in init[k].value;
        assert rs[k] == init[k];
      }
    }
  }

  /** `None` exactly for blank input or when some part is malformed or out
      of range. */
  lemma SelectedNone(input: string, max: int)
    ensures Selected(input, max).None? <==>
      AllSpace(input) || exists k :: 0 <= k < |Split(input, ',')| && PartIndices(Split(input, ',')[k], max).None?
  {
    SelectedUnfold(input, max);
    StripEmptyIffAllSpace(input);
    OutcomesNone(Split(input, ','), max);
  }

  lemma OutcomesNone(parts: seq<string>, max: int)
    ensures Combine(Outcomes(parts, max)).None? <==> exists k :: 0 <= k < |parts| && PartIndices(parts[k], max).None?
  {
    var rs := Outcomes(parts, max);
    CombineNone(rs);
    forall k | 0 <= k < |parts| ensures rs[k] == PartIndices(parts[k], max) {
      OutcomesAt(parts, max, k);
    }
  }

  /** On success, the selection is the union of what the parts select. */
  lemma SelectedMembers(input: string, max: int, i: int)
    requires Selected(input, max).Some?
    ensures i in Selected(input, max).value <==>
      exists k :: 0 <= k < |Split(input, ',')| && PartIndices(Split(input, ',')[k], max).Some?
               && i in PartIndices(Split(input, ',')[k], max).value
  {
    SelectedUnfold(input, max);
    OutcomesMembers(Split(input, ','), max, i);
  }

  lemma OutcomesMembers(parts: seq<string>, max: int, i: int)
    requires Combine(Outcomes(parts, max)).Some?
    ensures i in Combine(Outcomes(parts, max)).value <==>
      exists k :: 0 <= k < |parts| && PartIndices(parts[k], max).Some? && i in PartIndices(parts[k], max).value
  {
    var rs := Outcomes(parts, max);
    CombineMembers(rs, i);
    forall k | 0 <= k < |parts| ensures rs[k] == PartIndices(parts[k], max) {
      OutcomesAt(parts, max, k);
    }
  }

  lemma {:induction false} NoMinusInNatString(n: nat)
    ensures '-' !in NatString(n) && NoSpace(NatString(n))
  {
  }

  /** A single number `n` selects index `n - 1` when `1 <= n <= max`, and
      fails otherwise. */
  lemma PartNumber(n: nat, max: int)
    ensures PartIndices(Decimal(n), max) == if 1 <= n <= max then Some({n - 1}) else None
  {
    var d := Decimal(n);
    assert Strip(d) == d && '-' !in d by {
      NoMinusInNatString(n);
      StripFixedPoint(d);
    }
    assert ParseInt(d) == Some(n) by {
      ParseDecimal(n);
    }
  }

  /** A range `a-b` selects the indices `a - 1 .. b - 1` when
      `1 <= a <= b <= max`, and fails otherwise. */
  lemma PartRange(a: nat, b: nat, max: int)
    ensures PartIndices(Decimal(a) + "-" + Decimal(b), max) ==
      if 1 <= a && b <= max && a <= b then Some(Range(a - 1, b)) else None
  {
    var p := Decimal(a) + "-" + Decimal(b);
    SplitRange(a, b);
    ParseStripped(a);
    ParseStripped(b);
    assert PartIndices(p, max) == SpanIndices(Some(a), Some(b), max);
  }

  lemma SplitRange(a: nat, b: nat)
    ensures var p := Decimal(a) + "-" + Decimal(b);
      Strip(p) == p && '-' in p && SplitOnce(p, '-') == (Decimal(a), Decimal(b))
  {
    var da, db := Decimal(a), Decimal(b);
    var p := da + "-" + db;
    NoMinusInNatString(a);
    NoMinusInNatString(b);
    assert p == da + ['-'] + db;
    assert p[0] == da[0] && p[|p| - 1] == db[|db| - 1];
    StripFixedPoint(p);
    IndexOfAfter(da, '-', db);
    assert p[..|da|] == da && p[|da| + 1..] == db;
  }

  lemma ParseStripped(n: nat)
    ensures ParseInt(Strip(Decimal(n))) == Some(n)
  {
    NoMinusInNatString(n);
    StripFixedPoint(Decimal(n));
    ParseDecimal(n);
  }
}
