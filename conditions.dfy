/**
 * The stopping-condition mini-language of `_parse_condition_string`
 * (sequential.py:113-151).
 *
 * Parsing happens in two stages, as in the source. At construction `Parse`
 * only decides the shape: a string holding `|` becomes an OR of its
 * `|`-fragments, else one holding `&` an AND of its `&`-fragments, else an
 * atomic clause that must split into metric, comparator and value with a
 * known metric. The fragments and the numeric literal are only parsed when
 * the condition is evaluated (`Holds`), each time, left to right, and the
 * OR/AND stop at the first fragment that decides the result.
 */
module Conditions {
  import opened Results
  import opened Text
  import opened Metrics

  datatype Metric = Steps | Episodes | EpisodeReturn

  datatype Comparator = Lt | Gt | Le | Ge | Eq

  /**
   * `InvalidCondition` is the "Invalid condition string" `ValueError`;
   * `InvalidNumber` is the `ValueError` of `float(value)`.
   */
  datatype ConditionError = InvalidCondition(text: string) | InvalidNumber(text: string)

  /** What `_parse_condition_string` returns: a deferred OR, a deferred AND or a comparison. */
  datatype Condition =
    | AnyOf(fragments: seq<string>)
    | AllOf(fragments: seq<string>)
    | Compare(metric: Metric, comparator: Comparator, value: string)

  function MetricName(m: Metric): string
  {
    match m
    case Steps => "steps"
    case Episodes => "episodes"
    case EpisodeReturn => "episode_return"
  }

  /** The metric dispatch of lines 129-136; `None` is the invalid-metric error. */
  function MetricNamed(s: string): (r: Option<Metric>)
    ensures forall m :: r == Some(m) <==> MetricName(m) == s
  {
    if s == "steps" then Some(Steps)
    else if s == "episodes" then Some(Episodes)
    else if s == "episode_return" then Some(EpisodeReturn)
    else None
  }

  function ComparatorText(c: Comparator): string
  {
    match c
    case Lt => "<"
    case Gt => ">"
    case Le => "<="
    case Ge => ">="
    case Eq => "="
  }

  /** The comparator dispatch of lines 138-149; `None` is the final `else`. */
  function ComparatorNamed(s: string): (r: Option<Comparator>)
    ensures forall c :: r == Some(c) <==> ComparatorText(c) == s
  {
    if s == "<" then Some(Lt)
    else if s == ">" then Some(Gt)
    else if s == "<=" then Some(Le)
    else if s == ">=" then Some(Ge)
    else if s == "=" then Some(Eq)
    else None
  }

  predicate IsComparatorChar(ch: char)
  {
    ch == '<' || ch == '>' || ch == '='
  }

  predicate ComparatorFree(s: string)
  {
    forall i :: 0 <= i < |s| ==> !IsComparatorChar(s[i])
  }

  /**
   * The comparator the pattern `(<=|>=|=|<|>)` matches at position `i` of
   * `s`, if any. The alternatives are tried in order, so `<=` and `>=` win
   * over `<` and `>`.
   */
  function TokenAt(s: string, i: nat): (r: Option<Comparator>)
    requires i < |s|
    ensures r.None? <==> !IsComparatorChar(s[i])
    ensures r.Some? ==> i + |ComparatorText(r.value)| <= |s|
  {
    var eq := i + 1 < |s| && s[i + 1] == '=';
    if s[i] == '<' then Some(if eq then Le else Lt)
    else if s[i] == '>' then Some(if eq then Ge else Gt)
    else if s[i] == '=' then Some(Eq)
    else None
  }

  /** The matched comparator is spelled out at `i`. */
  lemma TokenSpelled(s: string, i: nat)
    requires i < |s| && TokenAt(s, i).Some?
    ensures s[i..i + |ComparatorText(TokenAt(s, i).value)|] == ComparatorText(TokenAt(s, i).value)
  {
  }

  /** The concatenation of all parts. */
  function Concat(parts: seq<string>): string
  {
    if parts == [] then [] else parts[0] + Concat(parts[1..])
  }

  /**
   * The shape of a `re.split` result with one capturing group: an odd number
   * of parts, comparator-free text at even positions and a comparator token
   * at odd positions.
   */
  ghost predicate Alternates(parts: seq<string>)
    decreases |parts|
  {
    && |parts| > 0
    && ComparatorFree(parts[0])
    && (|parts| == 1 || (|parts| >= 3 && ComparatorNamed(parts[1]).Some? && Alternates(parts[2..])))
  }

  lemma PrependConcat(a: string, t: string, rest: seq<string>)
    ensures Concat([a, t] + rest) == a + (t + Concat(rest))
  {
    var parts := [a, t] + rest;
    assert parts[1..][1..] == rest;
  }

  lemma SliceAt(s: string, a: nat, b: nat, c: nat)
    requires a <= b <= c <= |s|
    ensures s[a..] == s[a..b] + (s[b..c] + s[c..])
  {
  }

  /**
   * `re.split` with a capturing group, scanning from `i` with the current
   * field starting at `start`.
   */
  function SplitFrom(s: string, start: nat, i: nat): seq<string>
    requires start <= i <= |s|
    decreases |s| - i
  {
    if i == |s| then [s[start..]]
    else
      match TokenAt(s, i)
      case None => SplitFrom(s, start, i + 1)
      case Some(c) =>
        var t := ComparatorText(c);
        [s[start..i], t] + SplitFrom(s, i + |t|, i + |t|)
  }

  /** The scan loses no text. */
  lemma {:induction false} SplitFromConcat(s: string, start: nat, i: nat)
    requires start <= i <= |s|
    ensures Concat(SplitFrom(s, start, i)) == s[start..]
    decreases |s| - i
  {
    if i == |s| {
      assert Concat([s[start..]]) == s[start..] + Concat([]);
    } else {
      if TokenAt(s, i).None? {
        assert SplitFrom(s, start, i) == SplitFrom(s, start, i + 1);
        SplitFromConcat(s, start, i + 1);
      } else {
        var t := ComparatorText(TokenAt(s, i).value);
        var j := i + |t|;
        var rest := SplitFrom(s, j, j);
        assert SplitFrom(s, start, i) == [s[start..i], t] + rest;
        SplitFromConcat(s, j, j);
        PrependConcat(s[start..i], t, rest);
        SliceAt(s, start, i, j);
        TokenSpelled(s, i);
      }
    }
  }

  /** The scan alternates comparator-free fields and comparator tokens. */
  lemma {:induction false} SplitFromAlternates(s: string, start: nat, i: nat)
    requires start <= i <= |s| && ComparatorFree(s[start..i])
    ensures Alternates(SplitFrom(s, start, i))
    decreases |s| - i
  {
    if i == |s| {
      assert s[start..i] == s[start..];
    } else {
      if TokenAt(s, i).None? {
        var field := s[start..i + 1];
        forall k | 0 <= k < |field|
          ensures !IsComparatorChar(field[k])
        {
          if k < i - start {
            assert field[k] == s[start..i][k];
          }
        }
        assert SplitFrom(s, start, i) == SplitFrom(s, start, i + 1);
        SplitFromAlternates(s, start, i + 1);
      } else {
        var t := ComparatorText(TokenAt(s, i).value);
        var j := i + |t|;
        var rest := SplitFrom(s, j, j);
        var parts := [s[start..i], t] + rest;
        assert SplitFrom(s, start, i) == parts;
        SplitFromAlternates(s, j, j);
        assert parts[2..] == rest;
      }
    }
  }

  /** `re.split('(<=|>=|=|<|>)', s)` (line 124). */
  function SplitComparators(s: string): (parts: seq<string>)
    ensures Alternates(parts)
    ensures Concat(parts) == s
  {
    SplitFromConcat(s, 0, 0);
    SplitFromAlternates(s, 0, 0);
    SplitFrom(s, 0, 0)
  }

  /**
   * The atomic branch of `_parse_condition_string` at construction time
   * (lines 124-151): three parts and a known metric, nothing else is checked.
   */
  function ParseAtomic(s: string): (r: Result<Condition, ConditionError>)
    ensures r.Ok? <==> |SplitComparators(s)| == 3 && MetricNamed(SplitComparators(s)[0]).Some?
    ensures r.Err? ==> r.error == InvalidCondition(s)
    ensures r.Ok? ==> r.value.Compare? && ComparatorFree(r.value.value)
    ensures r.Ok? ==> s == MetricName(r.value.metric) + ComparatorText(r.value.comparator) + r.value.value
  {
    var parts := SplitComparators(s);
    if |parts| != 3 then Err(InvalidCondition(s))
    else
      match MetricNamed(parts[0])
      case None => Err(InvalidCondition(s))
      case Some(m) =>
        match ComparatorNamed(parts[1])
        case None => Err(InvalidCondition(s))
        case Some(c) =>
          assert ComparatorFree(parts[2]) by {
            assert Alternates(parts[2..]);
            assert parts[2..][0] == parts[2];
          }
          assert Concat(parts) == parts[0] + (parts[1] + parts[2]) by {
            assert Concat(parts[2..]) == parts[2] + Concat([]);
          }
          Ok(Compare(m, c, parts[2]))
  }

  /** The longest of the strings, 0 for none. */
  function MaxLen(xs: seq<string>): (r: nat)
    ensures forall i :: 0 <= i < |xs| ==> |xs[i]| <= r
    ensures xs != [] ==> exists i :: 0 <= i < |xs| && r == |xs[i]|
  {
    if xs == [] then 0
    else
      var m := MaxLen(xs[1..]);
      if |xs[0]| >= m then |xs[0]| else m
  }

  /** A termination measure: one more than the longest fragment still to be parsed. */
  function Bound(c: Condition): nat
  {
    match c
    case AnyOf(fs) => MaxLen(fs) + 1
    case AllOf(fs) => MaxLen(fs) + 1
    case Compare(_, _, _) => 0
  }

  /**
   * `_parse_condition_string(s)` at construction time. A string holding `|`
   * is an OR of its `|`-fragments even if it also holds `&`; composite strings
   * never fail here, an atomic one fails exactly as `ParseAtomic` does.
   */
  function Parse(s: string): (r: Result<Condition, ConditionError>)
    ensures r.Err? <==> '|' !in s && '&' !in s && ParseAtomic(s).Err?
    ensures r.Err? ==> r.error == InvalidCondition(s)
    ensures r.Ok? && r.value.AnyOf? <==> '|' in s
    ensures r.Ok? && r.value.AllOf? <==> '|' !in s && '&' in s
    ensures r.Ok? && r.value.AnyOf? ==>
      |r.value.fragments| > 0 && Join(r.value.fragments, '|') == s && forall i :: 0 <= i < |r.value.fragments| ==> '|' !in r.value.fragments[i]
    ensures r.Ok? && r.value.AllOf? ==>
      |r.value.fragments| > 0 && Join(r.value.fragments, '&') == s && forall i :: 0 <= i < |r.value.fragments| ==> '&' !in r.value.fragments[i]
    ensures r.Ok? ==> Bound(r.value) <= |s|
  {
    if '|' in s then Ok(AnyOf(SplitOn(s, '|')))
    else if '&' in s then Ok(AllOf(SplitOn(s, '&')))
    else ParseAtomic(s)
  }

  /** The live value of a metric (the getters of lines 153-166). */
  function MetricValue(m: Metric, l: Ledger): real
  {
    match m
    case Steps => l.Steps()
    case Episodes => l.Episodes()
    case EpisodeReturn => l.EpisodeReturn()
  }

  /** The numeric relations of lines 138-147; `=` is exact equality. */
  predicate Compares(x: real, c: Comparator, y: real)
  {
    match c
    case Lt => x < y
    case Gt => x > y
    case Le => x <= y
    case Ge => x >= y
    case Eq => x == y
  }

  /**
   * Calling the lambda that `Parse` described, against the ledger as it is
   * now. The comparison converts its literal here, not at construction.
   */
  function Holds(c: Condition, l: Ledger): (r: Result<bool, ConditionError>)
    ensures c.Compare? && r.Err? ==> r.error == InvalidNumber(c.value)
    decreases Bound(c), 1, 0
  {
    match c
    case Compare(m, cmp, v) =>
      (match ParseReal(v)
       case None => Err(InvalidNumber(v))
       case Some(x) => Ok(Compares(MetricValue(m, l), cmp, x)))
    case AnyOf(fs) => AnyHolds(fs, l)
    case AllOf(fs) => AllHolds(fs, l)
  }

  /** `self._parse_condition_string(cond)()`: parse a fragment now, then call it. */
  function EvalText(s: string, l: Ledger): Result<bool, ConditionError>
    decreases |s|, 2, 0
  {
    match Parse(s)
    case Err(e) => Err(e)
    case Ok(c) => Holds(c, l)
  }

  /** `any(...)` over the fragments, left to right, stopping at the first true. */
  function AnyHolds(fs: seq<string>, l: Ledger): (r: Result<bool, ConditionError>)
    ensures r == Ok(false) ==> forall i :: 0 <= i < |fs| ==> EvalText(fs[i], l) == Ok(false)
    ensures r == Ok(true) ==> exists i :: 0 <= i < |fs| && EvalText(fs[i], l) == Ok(true)
    decreases MaxLen(fs) + 1, 0, |fs|
  {
    if fs == [] then Ok(false)
    else
      match EvalText(fs[0], l)
      case Err(e) => Err(e)
      case Ok(b) => if b then Ok(true) else AnyHolds(fs[1..], l)
  }

  /** `all(...)` over the fragments, left to right, stopping at the first false. */
  function AllHolds(fs: seq<string>, l: Ledger): (r: Result<bool, ConditionError>)
    ensures r == Ok(true) ==> forall i :: 0 <= i < |fs| ==> EvalText(fs[i], l) == Ok(true)
    ensures r == Ok(false) ==> exists i :: 0 <= i < |fs| && EvalText(fs[i], l) == Ok(false)
    decreases MaxLen(fs) + 1, 0, |fs|
  {
    if fs == [] then Ok(true)
    else
      match EvalText(fs[0], l)
      case Err(e) => Err(e)
      case Ok(b) => if b then AllHolds(fs[1..], l) else Ok(false)
  }

  // ---------------------------------------------------------------------
  // The clause tokenizer

  /** Scanning over comparator-free text does not cut the field. */
  lemma {:induction false} SkipFree(s: string, start: nat, i: nat, j: nat)
    requires start <= i <= j <= |s|
    requires forall k :: i <= k < j ==> !IsComparatorChar(s[k])
    ensures SplitFrom(s, start, i) == SplitFrom(s, start, j)
    decreases j - i
  {
    if i < j {
      assert TokenAt(s, i).None?;
      SkipFree(s, start, i + 1, j);
    }
  }

  /** Text without a comparator is a single field. */
  lemma NoComparator(s: string)
    requires ComparatorFree(s)
    ensures SplitComparators(s) == [s]
  {
    SkipFree(s, 0, 0, |s|);
    assert s[0..] == s;
  }

  /**
   * A comparator that is not followed by `=` is matched whole at its
   * position, so `<=` and `>=` are never cut in two.
   */
  lemma TokenIsComparator(s: string, i: nat, c: Comparator)
    requires i + |ComparatorText(c)| <= |s| && s[i..i + |ComparatorText(c)|] == ComparatorText(c)
    requires i + |ComparatorText(c)| < |s| ==> !IsComparatorChar(s[i + |ComparatorText(c)|])
    ensures TokenAt(s, i) == Some(c)
  {
    assert s[i] == ComparatorText(c)[0];
    if |ComparatorText(c)| == 2 {
      assert s[i + 1] == ComparatorText(c)[1];
    }
  }

  /** Neither operator character occurs in a clause built from operator-free parts. */
  lemma NoOperatorIn(name: string, t: string, v: string)
    requires '|' !in name && '&' !in name && '|' !in t && '&' !in t && '|' !in v && '&' !in v
    ensures '|' !in name + t + v && '&' !in name + t + v
  {
    var s := name + t + v;
    forall i | 0 <= i < |s|
      ensures s[i] != '|' && s[i] != '&'
    {
      if i < |name| {
        assert s[i] == name[i];
      } else if i < |name| + |t| {
        assert s[i] == t[i - |name|];
      } else {
        assert s[i] == v[i - |name| - |t|];
      }
    }
  }

  /**
   * A clause `a c b` whose sides hold no comparator character splits into
   * exactly those three parts.
   */
  lemma ClauseSplit(a: string, c: Comparator, b: string)
    requires ComparatorFree(a) && ComparatorFree(b)
    ensures SplitComparators(a + ComparatorText(c) + b) == [a, ComparatorText(c), b]
  {
    var t := ComparatorText(c);
    var s := a + t + b;
    var j := |a| + |t|;
    assert forall k :: 0 <= k < |a| ==> s[k] == a[k];
    assert forall k :: j <= k < |s| ==> s[k] == b[k - j];
    assert s[|a|..j] == t;
    TokenIsComparator(s, |a|, c);
    SplitAroundToken(s, |a|, c);
    assert s[..|a|] == a;
    assert s[j..] == b;
  }

  /**
   * Text with exactly one comparator token, at `i`, splits into the text
   * before it, the token and the text after it.
   */
  lemma SplitAroundToken(s: string, i: nat, c: Comparator)
    requires i < |s| && TokenAt(s, i) == Some(c)
    requires forall k :: 0 <= k < i ==> !IsComparatorChar(s[k])
    requires forall k :: i + |ComparatorText(c)| <= k < |s| ==> !IsComparatorChar(s[k])
    ensures SplitComparators(s) == [s[..i], ComparatorText(c), s[i + |ComparatorText(c)|..]]
  {
    var j := i + |ComparatorText(c)|;
    SkipFree(s, 0, 0, i);
    assert SplitFrom(s, 0, i) == [s[0..i], ComparatorText(c)] + SplitFrom(s, j, j);
    SkipFree(s, j, j, |s|);
    assert s[0..i] == s[..i];
  }

  /**
   * Construction accepts every well-formed clause and gives back its metric,
   * comparator and (still unparsed) value.
   */
  lemma ClauseRoundTrip(m: Metric, c: Comparator, v: string)
    requires ComparatorFree(v) && '|' !in v && '&' !in v
    ensures Parse(MetricName(m) + ComparatorText(c) + v) == Ok(Compare(m, c, v))
  {
    var name, t := MetricName(m), ComparatorText(c);
    var s := name + t + v;
    assert '|' !in s && '&' !in s by {
      NoOperatorIn(name, t, v);
    }
    assert SplitComparators(s) == [name, t, v] by {
      assert ComparatorFree(name);
      ClauseSplit(name, c, v);
    }
    assert MetricNamed(name) == Some(m);
    assert ComparatorNamed(t) == Some(c);
    calc {
      Parse(s);
      ParseAtomic(s);
      Ok(Compare(m, c, v));
    }
  }

  /** A comparison against a natural-number literal compares with that number. */
  lemma CompareLiteral(m: Metric, c: Comparator, n: nat, l: Ledger)
    ensures Holds(Compare(m, c, NatText(n)), l) == Ok(Compares(MetricValue(m, l), c, n as real))
  {
    ParseRealOfNat(n);
  }

  /**
   * A comparison against any decimal literal (signed, with or without a
   * fraction) compares with the exact number the literal denotes.
   */
  lemma CompareDecimal(m: Metric, c: Comparator, d: Decimal, l: Ledger)
    requires WellFormedDecimal(d)
    ensures Holds(Compare(m, c, DecimalText(d)), l) == Ok(Compares(MetricValue(m, l), c, DecimalValue(d)))
  {
    ParseRealOfDecimal(d);
  }

  // ---------------------------------------------------------------------
  // Lazy, short-circuiting evaluation of composite conditions

  /**
   * OR evaluates its fragments left to right and returns the result of the
   * first one that is not `Ok(false)` (true, or the error raised while parsing
   * or evaluating it); later fragments are never parsed.
   */
  lemma {:induction false} AnyStopsAtFirstDecisive(fs: seq<string>, j: nat, l: Ledger)
    requires j < |fs|
    requires forall i :: 0 <= i < j ==> EvalText(fs[i], l) == Ok(false)
    requires EvalText(fs[j], l) != Ok(false)
    ensures AnyHolds(fs, l) == EvalText(fs[j], l)
    ensures AnyHolds(fs, l) == AnyHolds(fs[..j + 1], l)
    decreases |fs|
  {
    if j > 0 {
      AnyStopsAtFirstDecisive(fs[1..], j - 1, l);
    }
    if j + 1 < |fs| {
      AnyStopsAtFirstDecisive(fs[..j + 1], j, l);
    } else {
      assert fs[..j + 1] == fs;
    }
  }

  /** When every fragment evaluates, OR is the disjunction of the fragments. */
  lemma {:induction false} AnyIsDisjunction(fs: seq<string>, l: Ledger)
    requires forall i :: 0 <= i < |fs| ==> EvalText(fs[i], l).Ok?
    ensures AnyHolds(fs, l) == Ok(exists i :: 0 <= i < |fs| && EvalText(fs[i], l).value)
  {
    if fs != [] {
      var tail := fs[1..];
      AnyIsDisjunction(tail, l);
      if !EvalText(fs[0], l).value {
        if i :| 0 <= i < |fs| && EvalText(fs[i], l).value {
          assert tail[i - 1] == fs[i];
        }
        if i :| 0 <= i < |tail| && EvalText(tail[i], l).value {
          assert fs[i + 1] == tail[i];
        }
      }
    }
  }

  /**
   * AND evaluates its fragments left to right and returns the result of the
   * first one that is not `Ok(true)`; later fragments are never parsed.
   */
  lemma {:induction false} AllStopsAtFirstDecisive(fs: seq<string>, j: nat, l: Ledger)
    requires j < |fs|
    requires forall i :: 0 <= i < j ==> EvalText(fs[i], l) == Ok(true)
    requires EvalText(fs[j], l) != Ok(true)
    ensures AllHolds(fs, l) == EvalText(fs[j], l)
    ensures AllHolds(fs, l) == AllHolds(fs[..j + 1], l)
    decreases |fs|
  {
    if j > 0 {
      AllStopsAtFirstDecisive(fs[1..], j - 1, l);
    }
    if j + 1 < |fs| {
      AllStopsAtFirstDecisive(fs[..j + 1], j, l);
    } else {
      assert fs[..j + 1] == fs;
    }
  }

  /** When every fragment evaluates, AND is the conjunction of the fragments. */
  lemma {:induction false} AllIsConjunction(fs: seq<string>, l: Ledger)
    requires forall i :: 0 <= i < |fs| ==> EvalText(fs[i], l).Ok?
    ensures AllHolds(fs, l) == Ok(forall i :: 0 <= i < |fs| ==> EvalText(fs[i], l).value)
  {
    if fs != [] {
      var tail := fs[1..];
      AllIsConjunction(tail, l);
      if EvalText(fs[0], l).value {
        if i :| 0 <= i < |fs| && !EvalText(fs[i], l).value {
          assert tail[i - 1] == fs[i];
        }
        if i :| 0 <= i < |tail| && !EvalText(tail[i], l).value {
          assert fs[i + 1] == tail[i];
        }
      }
    }
  }

  // ---------------------------------------------------------------------
  // Two-fragment conditions and text without a comparator

  /** A one-fragment OR or AND is that fragment. */
  lemma SingleFragment(a: string, l: Ledger)
    ensures AnyHolds([a], l) == EvalText(a, l)
    ensures AllHolds([a], l) == EvalText(a, l)
  {
    assert [a][1..] == [];
  }

  /** `a|b` is the short-circuit OR of its two fragments. */
  lemma OrOfTwo(a: string, b: string, l: Ledger)
    requires '|' !in a && '|' !in b
    ensures Parse(a + "|" + b) == Ok(AnyOf([a, b]))
    ensures EvalText(a + "|" + b, l) ==
      match EvalText(a, l)
      case Ok(true) => Ok(true)
      case Ok(false) => EvalText(b, l)
      case Err(e) => Err(e)
  {
    var s := a + "|" + b;
    assert Join([a, b], '|') == s;
    SplitOnJoin([a, b], '|');
    assert s[|a|] == '|';
    assert Parse(s) == Ok(AnyOf([a, b]));
    assert EvalText(s, l) == AnyHolds([a, b], l);
    assert [a, b][1..] == [b];
    SingleFragment(b, l);
  }

  /** `a&b` (with no `|` anywhere) is the short-circuit AND of its two fragments. */
  lemma AndOfTwo(a: string, b: string, l: Ledger)
    requires '|' !in a && '|' !in b && '&' !in a && '&' !in b
    ensures Parse(a + "&" + b) == Ok(AllOf([a, b]))
    ensures EvalText(a + "&" + b, l) ==
      match EvalText(a, l)
      case Ok(true) => EvalText(b, l)
      case Ok(false) => Ok(false)
      case Err(e) => Err(e)
  {
    var s := a + "&" + b;
    assert Join([a, b], '&') == s;
    SplitOnJoin([a, b], '&');
    assert s[|a|] == '&';
    assert '|' !in s by {
      assert forall i :: 0 <= i < |s| ==> s[i] == (if i < |a| then a[i] else if i == |a| then '&' else b[i - |a| - 1]);
    }
    assert Parse(s) == Ok(AllOf([a, b]));
    assert EvalText(s, l) == AllHolds([a, b], l);
    assert [a, b][1..] == [b];
    SingleFragment(b, l);
  }

  /** Text with no comparator and no operator is rejected at construction. */
  lemma NoComparatorRejected(s: string)
    requires ComparatorFree(s) && '|' !in s && '&' !in s
    ensures Parse(s) == Err(InvalidCondition(s))
  {
    NoComparator(s);
  }

  // ---------------------------------------------------------------------
  // Worked examples

  /** A clause with a natural-number threshold, parsed and called at once. */
  lemma ClauseHolds(m: Metric, c: Comparator, n: nat, l: Ledger)
    ensures EvalText(MetricName(m) + ComparatorText(c) + NatText(n), l)
         == Ok(Compares(MetricValue(m, l), c, n as real))
  {
    ClauseRoundTrip(m, c, NatText(n));
    CompareLiteral(m, c, n, l);
  }

  /** A clause with a decimal-literal threshold, parsed and called at once. */
  lemma DecimalClauseHolds(m: Metric, c: Comparator, d: Decimal, l: Ledger)
    requires WellFormedDecimal(d)
    ensures EvalText(MetricName(m) + ComparatorText(c) + DecimalText(d), l)
         == Ok(Compares(MetricValue(m, l), c, DecimalValue(d)))
  {
    var v := DecimalText(d);
    DecimalTextStripped(d);
    assert ComparatorFree(v) && '|' !in v && '&' !in v;
    ClauseRoundTrip(m, c, v);
    CompareDecimal(m, c, d, l);
  }

  /** How the decimal thresholds of the examples below are spelled. */
  lemma DecimalSpelling()
    ensures DecimalText(Decimal(Unsigned, "0", Some("5"))) == "0.5"
    ensures MetricName(EpisodeReturn) + ComparatorText(Ge) + "0.5" == "episode_return>=0.5"
    ensures DecimalText(Decimal(Minus, "1", None)) == "-1"
    ensures MetricName(Steps) + ComparatorText(Gt) + "-1" == "steps>-1"
  {
  }

  /** `"episode_return>=0.5"` compares the mean return with one half. */
  lemma HalfReturnThreshold(s: string, l: Ledger)
    requires s == "episode_return>=0.5"
    ensures EvalText(s, l) == Ok(l.EpisodeReturn() >= 0.5)
  {
    var d := Decimal(Unsigned, "0", Some("5"));
    DecimalSpelling();
    assert WellFormedDecimal(d) && DecimalValue(d) == 0.5 by {
      assert DigitsValue("0") == 0 && DigitsValue("5") == 5 && Pow10(1) == 10;
    }
    DecimalClauseHolds(EpisodeReturn, Ge, d, l);
  }

  /** `"steps>-1"` reads its threshold with the sign: it holds whenever the step count is not negative. */
  lemma NegativeThreshold(s: string, l: Ledger)
    requires s == "steps>-1"
    ensures EvalText(s, l) == Ok(l.nSteps >= 0)
  {
    var d := Decimal(Minus, "1", None);
    DecimalSpelling();
    assert WellFormedDecimal(d) && DecimalValue(d) == -1.0 by {
      assert DigitsValue("1") == 1;
    }
    DecimalClauseHolds(Steps, Gt, d, l);
  }

  /** The clause `<metric><comparator><n>`. */
  function Clause(m: Metric, c: Comparator, n: nat): string
  {
    MetricName(m) + ComparatorText(c) + NatText(n)
  }

  /** How the clauses of the examples below are spelled. */
  lemma ClauseSpelling()
    ensures NatText(3) == "3"
    ensures Clause(Episodes, Le, 3) == "episodes<=3"
    ensures Clause(Steps, Ge, 100) == "steps>=100"
    ensures Clause(Steps, Ge, 1) == "steps>=1"
    ensures Clause(Episodes, Ge, 5) == "episodes>=5"
    ensures Clause(EpisodeReturn, Eq, 0) == "episode_return=0"
  {
  }

  lemma OrSpelling(s: string)
    requires s == "steps>=100|episodes>=5"
    ensures s == Clause(Steps, Ge, 100) + "|" + Clause(Episodes, Ge, 5)
  {
    ClauseSpelling();
  }


  lemma AndSpelling(s: string)
    requires s == "steps>=100&episodes>=5"
    ensures s == Clause(Steps, Ge, 100) + "&" + Clause(Episodes, Ge, 5)
  {
    ClauseSpelling();
  }


  lemma LazySpelling(b: string)
    requires b == "oops"
    ensures Clause(Steps, Ge, 1) + "|" + b == "steps>=1|oops"
    ensures ComparatorFree(b) && '|' !in b && '&' !in b
  {
    ClauseSpelling();
  }

  /** `"steps>=100"` holds exactly when the phase has taken at least 100 steps. */
  lemma StepsThreshold(s: string, l: Ledger)
    requires s == "steps>=100"
    ensures EvalText(s, l) == Ok(l.nSteps >= 100)
  {
    assert s == Clause(Steps, Ge, 100) by {
      ClauseSpelling();
    }
    ClauseHolds(Steps, Ge, 100, l);
    ExampleThresholds(l);
  }

  /** `"episodes<=3"` compares with `<=`: it is not cut at `<`. */
  lemma EpisodesAtMostThree(s: string, l: Ledger)
    requires s == "episodes<=3"
    ensures Parse(s) == Ok(Compare(Episodes, Le, "3"))
    ensures EvalText(s, l) == Ok(l.nEpisodes <= 3)
  {
    ClauseSpelling();
    ClauseRoundTrip(Episodes, Le, NatText(3));
    ClauseHolds(Episodes, Le, 3, l);
  }

  /** A clause holds no operator character. */
  lemma ClauseHasNoOperator(m: Metric, c: Comparator, n: nat)
    ensures '|' !in Clause(m, c, n) && '&' !in Clause(m, c, n)
  {
    var v := NatText(n);
    assert forall i :: 0 <= i < |v| ==> IsDigit(v[i]);
    NoOperatorIn(MetricName(m), ComparatorText(c), v);
  }

  /** The OR of two clauses is the disjunction of their comparisons. */
  lemma OrOfClauses(m1: Metric, c1: Comparator, n1: nat, m2: Metric, c2: Comparator, n2: nat, l: Ledger)
    ensures EvalText(Clause(m1, c1, n1) + "|" + Clause(m2, c2, n2), l)
         == Ok(Compares(MetricValue(m1, l), c1, n1 as real) || Compares(MetricValue(m2, l), c2, n2 as real))
  {
    ClauseHasNoOperator(m1, c1, n1);
    ClauseHasNoOperator(m2, c2, n2);
    ClauseHolds(m1, c1, n1, l);
    ClauseHolds(m2, c2, n2, l);
    OrOfTwo(Clause(m1, c1, n1), Clause(m2, c2, n2), l);
  }

  /** The AND of two clauses is the conjunction of their comparisons. */
  lemma AndOfClauses(m1: Metric, c1: Comparator, n1: nat, m2: Metric, c2: Comparator, n2: nat, l: Ledger)
    ensures EvalText(Clause(m1, c1, n1) + "&" + Clause(m2, c2, n2), l)
         == Ok(Compares(MetricValue(m1, l), c1, n1 as real) && Compares(MetricValue(m2, l), c2, n2 as real))
  {
    ClauseHasNoOperator(m1, c1, n1);
    ClauseHasNoOperator(m2, c2, n2);
    ClauseHolds(m1, c1, n1, l);
    ClauseHolds(m2, c2, n2, l);
    AndOfTwo(Clause(m1, c1, n1), Clause(m2, c2, n2), l);
  }

  /** A clause OR-ed with a fragment that has no comparator. */
  lemma ClauseOrMalformed(m: Metric, c: Comparator, n: nat, b: string, l: Ledger)
    requires ComparatorFree(b) && '|' !in b && '&' !in b
    ensures Parse(Clause(m, c, n) + "|" + b).Ok?
    ensures EvalText(Clause(m, c, n) + "|" + b, l)
         == if Compares(MetricValue(m, l), c, n as real) then Ok(true) else Err(InvalidCondition(b))
  {
    ClauseHasNoOperator(m, c, n);
    ClauseHolds(m, c, n, l);
    NoComparatorRejected(b);
    OrOfTwo(Clause(m, c, n), b, l);
  }

  /** The two thresholds of the OR and AND examples, read on the ledger. */
  lemma ExampleThresholds(l: Ledger)
    ensures Compares(MetricValue(Steps, l), Ge, 100 as real) == (l.nSteps >= 100)
    ensures Compares(MetricValue(Episodes, l), Ge, 5 as real) == (l.nEpisodes >= 5)
  {
  }

  /** An OR holds if either clause does. */
  lemma StepsOrEpisodes(s: string, l: Ledger)
    requires s == "steps>=100|episodes>=5"
    ensures EvalText(s, l) == Ok(l.nSteps >= 100 || l.nEpisodes >= 5)
  {
    var t := Clause(Steps, Ge, 100) + "|" + Clause(Episodes, Ge, 5);
    OrSpelling(s);
    OrOfClauses(Steps, Ge, 100, Episodes, Ge, 5, l);
    ExampleThresholds(l);
    calc {
      EvalText(s, l);
      EvalText(t, l);
      Ok(Compares(MetricValue(Steps, l), Ge, 100 as real) || Compares(MetricValue(Episodes, l), Ge, 5 as real));
      Ok(l.nSteps >= 100 || l.nEpisodes >= 5);
    }
  }

  /** An AND holds only if both clauses do. */
  lemma StepsAndEpisodes(s: string, l: Ledger)
    requires s == "steps>=100&episodes>=5"
    ensures EvalText(s, l) == Ok(l.nSteps >= 100 && l.nEpisodes >= 5)
  {
    var t := Clause(Steps, Ge, 100) + "&" + Clause(Episodes, Ge, 5);
    AndSpelling(s);
    AndOfClauses(Steps, Ge, 100, Episodes, Ge, 5, l);
    ExampleThresholds(l);
    calc {
      EvalText(s, l);
      EvalText(t, l);
      Ok(Compares(MetricValue(Steps, l), Ge, 100 as real) && Compares(MetricValue(Episodes, l), Ge, 5 as real));
      Ok(l.nSteps >= 100 && l.nEpisodes >= 5);
    }
  }



  /** `|` is looked for before `&`: a string with both is an OR whose fragments may be ANDs. */
  lemma OrBeforeAnd()
    ensures Parse("steps>=1&episodes>=2|episodes>=5") == Ok(AnyOf(["steps>=1&episodes>=2", "episodes>=5"]))
  {
    var a, c := "steps>=1&episodes>=2", "episodes>=5";
    assert "steps>=1&episodes>=2|episodes>=5" == a + "|" + c;
    OrOfTwo(a, c, Initial);
  }

  lemma AndFragment()
    ensures Parse("steps>=1&episodes>=2") == Ok(AllOf(["steps>=1", "episodes>=2"]))
  {
    var a, b := "steps>=1", "episodes>=2";
    assert "steps>=1&episodes>=2" == a + "&" + b;
    AndOfTwo(a, b, Initial);
  }

  /** Whitespace is not stripped: the metric of `"steps >= 1"` is `"steps "`. */
  lemma NoWhitespaceStripping(s: string)
    requires s == "steps >= 1"
    ensures Parse(s) == Err(InvalidCondition(s))
  {
    var a, b := "steps ", " 1";
    assert s == a + ComparatorText(Ge) + b;
    ClauseSplit(a, Ge, b);
    assert MetricNamed(a) == None;
    assert '|' !in s && '&' !in s;
  }

  /**
   * A malformed fragment after a true one is never parsed; after a false one
   * its error surfaces when the condition is called, not at construction.
   */
  lemma MalformedFragmentIsLazy(s: string, l: Ledger)
    requires s == "steps>=1|oops"
    ensures Parse(s).Ok?
    ensures EvalText(s, l) == if l.nSteps >= 1 then Ok(true) else Err(InvalidCondition("oops"))
  {
    var b := "oops";
    LazySpelling(b);
    ClauseOrMalformed(Steps, Ge, 1, b, l);
  }

  lemma NotANumber()
    ensures ParseReal("many") == None
  {
    var v := "many";
    assert forall i :: 0 <= i < |v| ==> !IsSpace(v[i]);
    assert v[0] == 'm';
    ParseRealBare(v);
    SplitOnFree(v, '.');
    assert !IsDigit(v[0]);
  }

  /** A threshold that is not a number is accepted at construction and fails when called. */
  lemma ThresholdIsLazy(l: Ledger)
    ensures Parse("steps>=many") == Ok(Compare(Steps, Ge, "many"))
    ensures EvalText("steps>=many", l) == Err(InvalidNumber("many"))
  {
    var v := "many";
    assert "steps>=many" == MetricName(Steps) + ComparatorText(Ge) + v;
    ClauseRoundTrip(Steps, Ge, v);
    NotANumber();
  }

  /** With no returns recorded, `episode_return` reads 0 rather than dividing by zero. */
  lemma MeanReturnWithoutEpisodes(l: Ledger)
    requires l.episodeReturns == []
    ensures EvalText("episode_return=0", l) == Ok(true)
  {
    assert "episode_return=0" == MetricName(EpisodeReturn) + ComparatorText(Eq) + NatText(0);
    ClauseHolds(EpisodeReturn, Eq, 0, l);
  }
}
