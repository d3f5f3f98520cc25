/** The two benchmark report tools under bench/, once their JSON documents
    are loaded: `compare_reports.py`, which prints the deltas of three fixed
    fields between a baseline and a candidate report, and
    `compute_quality.py`, which checks that a report has its required
    top-level sections. A run ends with an exit code and, unless it stopped
    early, one JSON document on standard output; an uncaught Python
    exception ends the run with exit code 1 and nothing on standard output. */
module Bench {
  import opened Wrappers

  /** A loaded JSON value; Python's `int` and `float` are both `Num`. */
  datatype Json =
    | Null
    | Bool(b: bool)
    | Num(n: real)
    | Str(s: string)
    | Arr(items: seq<Json>)
    | Obj(fields: map<string, Json>)

  /** How a run ends: its exit code and what it printed to standard output. */
  datatype Outcome<T> = Outcome(exitCode: int, stdout: Option<T>)

  /** The exceptions the scripts can raise on unexpected documents. */
  datatype Raised = AttributeError | TypeError

  // ---------------------------------------------------------------------
  // compare_reports.py
  // ---------------------------------------------------------------------

  /** The fixed (section, key) selectors, in order. */
  const Fields: seq<(string, string)> :=
    [("ingestion", "parse_wall_ms"), ("matching", "match_wall_ms_total"), ("memory", "peak_rss_mb")]

  /** The report key of a selector, `section.key`. */
  function Label(f: (string, string)): string
  {
    f.0 + "." + f.1
  }

  /** One line of the report. */
  datatype Delta = Delta(baseline: Json, candidate: Json, delta: real)

  /** The report, in insertion order. */
  type Report = seq<(string, Delta)>

  /** Python's `x.get(k, d)`: only a dict has `get`. */
  function Get(x: Json, k: string, d: Json): Result<Json, Raised>
  {
    if x.Obj? then Ok(if k in x.fields then x.fields[k] else d) else Err(AttributeError)
  }

  /** `doc.get(section, {}).get(key)`; a JSON `null` and a missing key both
      come out as `Null`. */
  function Select(doc: Json, f: (string, string)): Result<Json, Raised>
  {
    match Get(doc, f.0, Obj(map[]))
    case Err(e) => Err(e)
    case Ok(section) => Get(section, f.1, Null)
  }

  /** The numeric value of a JSON value in Python arithmetic (`bool` is an
      `int`), if it has one. */
  function Numeric(x: Json): Option<real>
  {
    match x
    case Num(n) => Some(n)
    case Bool(b) => Some(if b then 1.0 else 0.0)
    case _ => None
  }

  /** `c - b`. */
  function Subtract(c: Json, b: Json): Result<real, Raised>
  {
    if Numeric(c).Some? && Numeric(b).Some? then Ok(Numeric(c).value - Numeric(b).value)
    else Err(TypeError)
  }

  /** The selector loop from selector `i` on. */
  function ReportFrom(base: Json, cand: Json, i: nat): Result<Report, Raised>
    requires i <= |Fields|
    decreases |Fields| - i
  {
    if i == |Fields| then Ok([])
    else
      match Select(base, Fields[i])
      case Err(e) => Err(e)
      case Ok(b) =>
        match Select(cand, Fields[i])
        case Err(e) => Err(e)
        case Ok(c) =>
          if b == Null || c == Null then ReportFrom(base, cand, i + 1)
          else
            match Subtract(c, b)
            case Err(e) => Err(e)
            case Ok(d) =>
              match ReportFrom(base, cand, i + 1)
              case Err(e) => Err(e)
              case Ok(rest) => Ok([(Label(Fields[i]), Delta(b, c, d))] + rest)
  }

  /** The whole script, with `argv` and the two loaded documents. */
  function CompareReports(argv: seq<string>, base: Json, cand: Json): (r: Outcome<Report>)
    ensures r.exitCode == 2 <==> |argv| != 3
    ensures r.exitCode == 2 ==> r.stdout == None
    ensures r.stdout.Some? <==> r.exitCode == 0
  {
    if |argv| != 3 then Outcome(2, None)
    else
      match ReportFrom(base, cand, 0)
      case Err(_) => Outcome(1, None)
      case Ok(report) => Outcome(0, Some(report))
  }

  /** A section that is either missing or a mapping. */
  ghost predicate SectionOk(doc: Json, section: string)
    requires doc.Obj?
  {
    section !in doc.fields || doc.fields[section].Obj?
  }

  /** The selector has a non-null value in the document. */
  ghost predicate Present(doc: Json, f: (string, string))
  {
    doc.Obj? && f.0 in doc.fields && doc.fields[f.0].Obj?
    && f.1 in doc.fields[f.0].fields && doc.fields[f.0].fields[f.1] != Null
  }

  ghost function Value(doc: Json, f: (string, string)): Json
    requires Present(doc, f)
  {
    doc.fields[f.0].fields[f.1]
  }

  /** Selector `i` raises nothing on these documents. */
  ghost predicate FieldOk(base: Json, cand: Json, i: nat)
    requires i < |Fields|
  {
    base.Obj? && cand.Obj? && SectionOk(base, Fields[i].0) && SectionOk(cand, Fields[i].0)
    && (Present(base, Fields[i]) && Present(cand, Fields[i]) ==>
          Numeric(Value(base, Fields[i])).Some? && Numeric(Value(cand, Fields[i])).Some?)
  }

  /** Selectors `i` onwards raise nothing on these documents. */
  ghost predicate ComparableFrom(base: Json, cand: Json, i: nat)
  {
    forall j :: i <= j < |Fields| ==> FieldOk(base, cand, j)
  }

  /** The documents the script gets through without an exception: both are
      mappings, every selected section is missing or a mapping, and every
      selected pair of values is numeric. */
  ghost predicate Comparable(base: Json, cand: Json)
  {
    ComparableFrom(base, cand, 0)
  }

  /** The report as described: one entry per selector present in both
      documents, in selector order, holding both values and their
      difference. */
  ghost function Expected(base: Json, cand: Json, i: nat): Report
    requires i <= |Fields|
    requires ComparableFrom(base, cand, i)
    decreases |Fields| - i
  {
    if i == |Fields| then []
    else if Present(base, Fields[i]) && Present(cand, Fields[i]) then
      assert FieldOk(base, cand, i);
      var b := Value(base, Fields[i]);
      var c := Value(cand, Fields[i]);
      [(Label(Fields[i]), Delta(b, c, Numeric(c).value - Numeric(b).value))] + Expected(base, cand, i + 1)
    else Expected(base, cand, i + 1)
  }

  lemma SelectOk(doc: Json, f: (string, string))
    requires doc.Obj? && SectionOk(doc, f.0)
    ensures Select(doc, f).Ok?
    ensures Select(doc, f).value != Null <==> Present(doc, f)
    ensures Present(doc, f) ==> Select(doc, f).value == Value(doc, f)
  {
  }

  /** One selector's step raises exactly when its part of `Comparable`
      fails, and otherwise adds the described entry, if any. */
  lemma ReportStep(base: Json, cand: Json, i: nat)
    requires i < |Fields|
    ensures ReportFrom(base, cand, i).Ok? <==> FieldOk(base, cand, i) && ReportFrom(base, cand, i + 1).Ok?
    ensures ReportFrom(base, cand, i).Ok? && !(Present(base, Fields[i]) && Present(cand, Fields[i])) ==>
      ReportFrom(base, cand, i).value == ReportFrom(base, cand, i + 1).value
    ensures ReportFrom(base, cand, i).Ok? && Present(base, Fields[i]) && Present(cand, Fields[i]) ==>
      var b := Value(base, Fields[i]);
      var c := Value(cand, Fields[i]);
      ReportFrom(base, cand, i).value ==
        [(Label(Fields[i]), Delta(b, c, Numeric(c).value - Numeric(b).value))] + ReportFrom(base, cand, i + 1).value
  {
    var f := Fields[i];
    if base.Obj? && cand.Obj? && SectionOk(base, f.0) && SectionOk(cand, f.0) {
      SelectOk(base, f);
      SelectOk(cand, f);
    } else if !base.Obj? || !SectionOk(base, f.0) {
      assert Select(base, f).Err?;
    } else {
      assert Select(cand, f).Err?;
    }
  }

  /** The selector loop raises exactly on documents that are not comparable
      from selector `i` on, and otherwise builds the described report. */
  lemma {:induction false} ReportFromOk(base: Json, cand: Json, i: nat)
    requires i <= |Fields|
    ensures ReportFrom(base, cand, i).Ok? <==> ComparableFrom(base, cand, i)
    ensures ReportFrom(base, cand, i).Ok? ==> ReportFrom(base, cand, i).value == Expected(base, cand, i)
    decreases |Fields| - i
  {
    if i < |Fields| {
      ReportFromOk(base, cand, i + 1);
      ReportStep(base, cand, i);
      ComparableStep(base, cand, i);
    }
  }

  /** Selectors `i` onwards are comparable exactly when selector `i` is and
      those after it are. */
  lemma ComparableStep(base: Json, cand: Json, i: nat)
    requires i < |Fields|
    ensures ComparableFrom(base, cand, i) <==> FieldOk(base, cand, i) && ComparableFrom(base, cand, i + 1)
  {
  }

  /** The differ succeeds exactly on comparable documents, and then prints
      the described report. */
  lemma CompareSucceeds(argv: seq<string>, base: Json, cand: Json)
    requires |argv| == 3
    ensures CompareReports(argv, base, cand).exitCode == 0 <==> Comparable(base, cand)
    ensures CompareReports(argv, base, cand).exitCode != 0 ==> CompareReports(argv, base, cand) == Outcome(1, None)
    ensures Comparable(base, cand) ==> CompareReports(argv, base, cand).stdout == Some(Expected(base, cand, 0))
  {
    ReportFromOk(base, cand, 0);
  }

  /** The keys of a report, in order. */
  function Keys(report: Report): (r: seq<string>)
    ensures |r| == |report|
    ensures forall j :: 0 <= j < |report| ==> r[j] == report[j].0
  {
    if report == [] then [] else [report[0].0] + Keys(report[1..])
  }

  /** `a` is `b` with some elements left out, the rest in order. */
  predicate Subsequence<T(==)>(a: seq<T>, b: seq<T>)
  {
    if a == [] then true
    else if b == [] then false
    else if a[0] == b[0] then Subsequence(a[1..], b[1..])
    else Subsequence(a, b[1..])
  }

  /** The labels of selectors `i` onwards, in order. */
  function LabelsFrom(i: nat): (r: seq<string>)
    requires i <= |Fields|
    ensures |r| == |Fields| - i
    ensures forall j :: i <= j < |Fields| ==> r[j - i] == Label(Fields[j])
    decreases |Fields| - i
  {
    if i == |Fields| then [] else [Label(Fields[i])] + LabelsFrom(i + 1)
  }

  /** Whether both documents have a value for each of selectors `i`
      onwards. */
  ghost function PresentFrom(base: Json, cand: Json, i: nat): (r: seq<bool>)
    requires i <= |Fields|
    ensures |r| == |Fields| - i
    ensures forall j :: i <= j < |Fields| ==> r[j - i] == (Present(base, Fields[j]) && Present(cand, Fields[j]))
    decreases |Fields| - i
  {
    if i == |Fields| then []
    else [Present(base, Fields[i]) && Present(cand, Fields[i])] + PresentFrom(base, cand, i + 1)
  }

  /** The elements of `xs` whose flag in `keep` is set, in order. */
  function Filter<T>(xs: seq<T>, keep: seq<bool>): seq<T>
    requires |xs| == |keep|
  {
    if xs == [] then [] else (if keep[0] then [xs[0]] else []) + Filter(xs[1..], keep[1..])
  }

  /** No element occurs twice. */
  predicate Distinct<T(==)>(xs: seq<T>)
  {
    forall a, b :: 0 <= a < b < |xs| ==> xs[a] != xs[b]
  }

  /** Filtering keeps only elements of the input. */
  lemma {:induction false} FilterWithin<T>(xs: seq<T>, keep: seq<bool>)
    requires |xs| == |keep|
    ensures forall k :: k in Filter(xs, keep) ==> k in xs
  {
    if xs != [] {
      FilterWithin(xs[1..], keep[1..]);
      forall k | k in Filter(xs, keep)
        ensures k in xs
      {
        assert k == xs[0] || k in Filter(xs[1..], keep[1..]);
      }
    }
  }

  /** Over distinct elements, an element survives the filter exactly when
      its flag is set. */
  lemma {:induction false} FilterMembers<T>(xs: seq<T>, keep: seq<bool>)
    requires |xs| == |keep|
    requires Distinct(xs)
    ensures forall j :: 0 <= j < |xs| ==> (xs[j] in Filter(xs, keep) <==> keep[j])
  {
    if xs != [] {
      var rest := Filter(xs[1..], keep[1..]);
      FilterMembers(xs[1..], keep[1..]);
      FilterWithin(xs[1..], keep[1..]);
      forall j | 0 <= j < |xs|
        ensures xs[j] in Filter(xs, keep) <==> keep[j]
      {
        if j == 0 {
          assert xs[0] !in xs[1..];
        } else {
          assert xs[1..][j - 1] == xs[j];
          assert xs[j] != xs[0];
        }
      }
    }
  }

  /** Over distinct elements, the filtered sequence keeps the input's
      order. */
  lemma {:induction false} FilterOrder<T>(xs: seq<T>, keep: seq<bool>)
    requires |xs| == |keep|
    requires Distinct(xs)
    ensures Subsequence(Filter(xs, keep), xs)
  {
    if xs != [] {
      var rest := Filter(xs[1..], keep[1..]);
      FilterOrder(xs[1..], keep[1..]);
      assert xs == [xs[0]] + xs[1..];
      if keep[0] {
        assert Filter(xs, keep) == [xs[0]] + rest;
        assert ([xs[0]] + rest)[1..] == rest;
      } else {
        assert Filter(xs, keep) == rest;
        FilterWithin(xs[1..], keep[1..]);
        assert xs[0] !in xs[1..];
        SubsequenceSkip(rest, xs[1..], xs[0]);
      }
    }
  }

  /** The report's keys are the labels of the selectors both documents have
      a value for, in selector order. */
  lemma {:induction false} ExpectedKeys(base: Json, cand: Json, i: nat)
    requires i <= |Fields|
    requires ComparableFrom(base, cand, i)
    ensures Keys(Expected(base, cand, i)) == Filter(LabelsFrom(i), PresentFrom(base, cand, i))
    decreases |Fields| - i
  {
    if i < |Fields| {
      ExpectedKeysStep(base, cand, i);
      ExpectedKeys(base, cand, i + 1);
      assert LabelsFrom(i)[1..] == LabelsFrom(i + 1);
      assert PresentFrom(base, cand, i)[1..] == PresentFrom(base, cand, i + 1);
    }
  }

  /** One selector's step on the report's keys: its label comes first when
      both documents have a value for it. */
  lemma ExpectedKeysStep(base: Json, cand: Json, i: nat)
    requires i < |Fields|
    requires ComparableFrom(base, cand, i)
    ensures ComparableFrom(base, cand, i + 1)
    ensures Keys(Expected(base, cand, i)) ==
      (if Present(base, Fields[i]) && Present(cand, Fields[i]) then [Label(Fields[i])] else [])
        + Keys(Expected(base, cand, i + 1))
  {
    var e := Expected(base, cand, i);
    if Present(base, Fields[i]) && Present(cand, Fields[i]) {
      assert e[1..] == Expected(base, cand, i + 1);
    }
  }

  /** The report's keys are among the selector labels, in selector order. */
  lemma ExpectedOrder(base: Json, cand: Json)
    requires Comparable(base, cand)
    ensures Subsequence(Keys(Expected(base, cand, 0)), LabelsFrom(0))
  {
    ExpectedKeys(base, cand, 0);
    LabelsFromDistinct();
    FilterOrder(LabelsFrom(0), PresentFrom(base, cand, 0));
  }

  /** Selector `j` is reported exactly when both documents have a value for
      it. */
  lemma ExpectedMembers(base: Json, cand: Json)
    requires Comparable(base, cand)
    ensures forall j :: 0 <= j < |Fields| ==>
      (Label(Fields[j]) in Keys(Expected(base, cand, 0)) <==> Present(base, Fields[j]) && Present(cand, Fields[j]))
  {
    var labels := LabelsFrom(0);
    var keep := PresentFrom(base, cand, 0);
    ExpectedKeys(base, cand, 0);
    LabelsFromDistinct();
    FilterMembers(labels, keep);
    forall j | 0 <= j < |Fields|
      ensures Label(Fields[j]) in Keys(Expected(base, cand, 0)) <==> Present(base, Fields[j]) && Present(cand, Fields[j])
    {
      assert labels[j - 0] == Label(Fields[j]) && keep[j - 0] == (Present(base, Fields[j]) && Present(cand, Fields[j]));
    }
  }

  /** Every key of the report is one of the selector labels. */
  lemma ExpectedLabelsOnly(base: Json, cand: Json)
    requires Comparable(base, cand)
    ensures forall k :: k in Keys(Expected(base, cand, 0)) ==> exists j :: 0 <= j < |Fields| && k == Label(Fields[j])
  {
    var labels := LabelsFrom(0);
    ExpectedKeys(base, cand, 0);
    FilterWithin(labels, PresentFrom(base, cand, 0));
    forall k | k in Keys(Expected(base, cand, 0))
      ensures exists j :: 0 <= j < |Fields| && k == Label(Fields[j])
    {
      var j :| 0 <= j < |labels| && labels[j] == k;
      assert labels[j - 0] == Label(Fields[j]);
    }
  }

  /** Every entry copies both documents' values for its selector and holds
      the candidate's value minus the baseline's. */
  lemma {:induction false} ExpectedEntries(base: Json, cand: Json, i: nat)
    requires i <= |Fields|
    requires ComparableFrom(base, cand, i)
    ensures forall e :: e in Expected(base, cand, i) ==>
      exists j :: i <= j < |Fields| && e.0 == Label(Fields[j])
        && Present(base, Fields[j]) && Present(cand, Fields[j])
        && e.1.baseline == Value(base, Fields[j]) && e.1.candidate == Value(cand, Fields[j])
        && Numeric(e.1.candidate).Some? && Numeric(e.1.baseline).Some?
        && e.1.delta == Numeric(e.1.candidate).value - Numeric(e.1.baseline).value
    decreases |Fields| - i
  {
    if i < |Fields| {
      ExpectedEntries(base, cand, i + 1);
      assert FieldOk(base, cand, i);
    }
  }

  lemma SubsequenceSkip<T>(a: seq<T>, b: seq<T>, x: T)
    requires Subsequence(a, b)
    requires x !in a
    ensures Subsequence(a, [x] + b)
  {
    if a != [] {
      assert ([x] + b)[1..] == b;
    }
  }

  /** The three selector labels differ from each other. */
  lemma LabelsFromDistinct()
    ensures Distinct(LabelsFrom(0))
  {
    var l := LabelsFrom(0);
    assert l[0][0] == 'i';
    assert l[1][0] == 'm' && l[1][1] == 'a';
    assert l[2][0] == 'm' && l[2][1] == 'e';
  }

  // ---------------------------------------------------------------------
  // compute_quality.py
  // ---------------------------------------------------------------------

  /** The required top-level sections, in order. */
  const Required: seq<string> := ["version", "ingestion", "matching", "memory", "build"]

  /** What the validator prints: `{"ok": true}` or
      `{"ok": false, "missing": [...]}`. */
  datatype Verdict = Passed | Failed(missing: seq<string>)

  /** `k` occurs in `s` as a contiguous piece. */
  predicate Substring(k: string, s: string)
  {
    k <= s || (s != [] && Substring(k, s[1..]))
  }

  /** Python's `k in j`: a key of a dict, an element of a list, a piece of
      a string; any other value raises. */
  function Contains(j: Json, k: string): Result<bool, Raised>
  {
    match j
    case Obj(fields) => Ok(k in fields)
    case Arr(items) => Ok(Str(k) in items)
    case Str(s) => Ok(Substring(k, s))
    case _ => Err(TypeError)
  }

  /** `[k for k in required if k not in j]` over `required`. */
  function MissingOf(j: Json, required: seq<string>): (r: Result<seq<string>, Raised>)
    ensures r.Ok? <==> (required == [] || Contains(j, required[0]).Ok?)
  {
    if required == [] then Ok([])
    else
      match Contains(j, required[0])
      case Err(e) => Err(e)
      case Ok(present) =>
        match MissingOf(j, required[1..])
        case Err(e) => Err(e)
        case Ok(rest) => Ok(if present then rest else [required[0]] + rest)
  }

  /** The whole validator, with `argv` and the loaded document. */
  function ComputeQuality(argv: seq<string>, j: Json): (r: Outcome<Verdict>)
    ensures r.exitCode == 2 <==> |argv| < 2
    ensures r.exitCode == 2 ==> r.stdout == None
    ensures r.exitCode == 0 <==> r.stdout == Some(Passed)
    ensures r.stdout.Some? && r.stdout.value.Failed? ==> r.exitCode == 1 && r.stdout.value.missing != []
  {
    if |argv| < 2 then Outcome(2, None)
    else
      match MissingOf(j, Required)
      case Err(_) => Outcome(1, None)
      case Ok(missing) =>
        if missing != [] then Outcome(1, Some(Failed(missing))) else Outcome(0, Some(Passed))
  }

  /** On a mapping, `missing` holds exactly the required keys the mapping
      lacks, in the order of `required`. */
  lemma {:induction false} MissingOfObject(fields: map<string, Json>, required: seq<string>)
    ensures MissingOf(Obj(fields), required).Ok?
    ensures forall k :: k in MissingOf(Obj(fields), required).value <==> k in required && k !in fields
    ensures Subsequence(MissingOf(Obj(fields), required).value, required)
    ensures MissingOf(Obj(fields), required).value == [] <==> forall k :: k in required ==> k in fields
  {
    if required != [] {
      MissingOfObject(fields, required[1..]);
      var rest := MissingOf(Obj(fields), required[1..]).value;
      assert required == [required[0]] + required[1..];
      if required[0] in fields {
        assert required[0] !in rest;
        SubsequenceSkip(rest, required[1..], required[0]);
      } else {
        assert ([required[0]] + rest)[1..] == rest;
      }
    }
  }

  /** On a report that is a mapping the validator never raises: it passes
      exactly when every required section is present, and otherwise lists
      the absent ones in order. */
  lemma QualityOfObject(argv: seq<string>, fields: map<string, Json>)
    requires |argv| >= 2
    ensures ComputeQuality(argv, Obj(fields)).exitCode == 0 <==> forall k :: k in Required ==> k in fields
    ensures ComputeQuality(argv, Obj(fields)).exitCode != 0 ==>
      exists missing :: ComputeQuality(argv, Obj(fields)) == Outcome(1, Some(Failed(missing)))
        && (forall k :: k in missing <==> k in Required && k !in fields)
        && Subsequence(missing, Required)
  {
    MissingOfObject(fields, Required);
  }

  /** Only the top-level keys are looked at: the contents of the sections
      never change the verdict. */
  lemma QualityIgnoresSections(argv: seq<string>, a: map<string, Json>, b: map<string, Json>)
    requires a.Keys == b.Keys
    ensures ComputeQuality(argv, Obj(a)) == ComputeQuality(argv, Obj(b))
  {
    MissingSameKeys(a, b, Required);
  }

  lemma {:induction false} MissingSameKeys(a: map<string, Json>, b: map<string, Json>, required: seq<string>)
    requires a.Keys == b.Keys
    ensures MissingOf(Obj(a), required) == MissingOf(Obj(b), required)
  {
    if required != [] {
      MissingSameKeys(a, b, required[1..]);
      assert (required[0] in a) == (required[0] in b);
    }
  }

  /** Arguments after the first are ignored. */
  lemma QualityIgnoresExtraArguments(argv: seq<string>, j: Json)
    requires |argv| >= 2
    ensures ComputeQuality(argv, j) == ComputeQuality(argv[..2], j)
  {
  }

  /** A report that is `null`, a boolean or a number makes the membership
      test raise. */
  lemma QualityRaises(argv: seq<string>, j: Json)
    requires |argv| >= 2
    requires j.Null? || j.Bool? || j.Num?
    ensures ComputeQuality(argv, j) == Outcome(1, None)
  {
  }
}
