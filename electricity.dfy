/**
 * The electricity query of getCharge/dianfei_core.py once the HTTP call and
 * the JSON decoding are done: the checks on the request payload, the
 * navigation to `showData`, the choice of the reading among its fields and
 * the text part of turning that reading into a number.
 */
module Electricity {
  import opened Wrappers
  import opened Text
  import opened PyJson
  import opened Redaction

  /** The exceptions `query_current_electricity` lets out, with their messages. */
  datatype Failure =
    | ValueError(msg: string)
    | KeyError(msg: string)
    | AttributeError(typeName: string)
    | HttpError(status: int)

  // ---------------------------------------------------------------------
  // Required fields

  /** `required`, listed in the order `sorted` gives. */
  const Required: seq<string> := ["building", "campus", "feeitemid", "level", "room", "type"]

  lemma RequiredSorted()
    ensures StrictlySorted(Required)
  {
    assert LexLess(Required[0], Required[1]);
    assert LexLess(Required[1], Required[2]);
    assert LexLess(Required[2], Required[3]);
    assert LexLess(Required[3], Required[4]);
    assert LexLess(Required[4], Required[5]);
    forall i, j | 0 <= i < j < |Required|
      ensures LexLess(Required[i], Required[j])
    {
      var k := i;
      while k + 1 < j
        invariant i <= k < j
        invariant k == i || LexLess(Required[i], Required[k])
      {
        if k > i {
          LexLessTransitive(Required[i], Required[k], Required[k + 1]);
        }
        k := k + 1;
      }
      if k > i {
        LexLessTransitive(Required[i], Required[k], Required[j]);
      }
    }
  }

  /** The names of `names` that are not in `keys`, in their order. */
  function Without(names: seq<string>, keys: set<string>): (m: seq<string>)
    ensures forall x :: x in m <==> x in names && x !in keys
    ensures StrictlySorted(names) ==> StrictlySorted(m)
  {
    if names == [] then []
    else
      var rest := Without(names[1..], keys);
      assert StrictlySorted(names) ==> StrictlySorted(names[1..]);
      if names[0] in keys then rest
      else
        assert StrictlySorted(names) ==> forall x :: x in rest ==> LexLess(names[0], x);
        [names[0]] + rest
  }

  /** `sorted(required - set(payload.keys()))`. */
  function Missing(keys: set<string>): (m: seq<string>)
  {
    Without(Required, keys)
  }

  /** The missing names are exactly the required ones the payload lacks,
      listed as `sorted` lists them: any sorted listing of that set is this one. */
  lemma MissingIsSorted(keys: set<string>, listing: seq<string>)
    requires StrictlySorted(listing)
    requires forall x :: x in listing <==> x in Required && x !in keys
    ensures Missing(keys) == listing
    ensures StrictlySorted(Missing(keys))
  {
    RequiredSorted();
    SortedUnique(Missing(keys), listing);
  }

  /** The message of the KeyError for missing fields. */
  function MissingMessage(keys: set<string>): string {
    "缺少字段：" + Join(Missing(keys), ", ")
  }

  // ---------------------------------------------------------------------
  // _pick_show_value

  const Candidates: seq<string> := ["当前剩余电量", "剩余电量", "当前剩余电量(kWh)"]

  /** The fuzzy test: the key mentions "remaining" or "charge". */
  predicate Fuzzy(k: string) {
    Contains(k, "剩余") || Contains(k, "电量")
  }

  /** The index of the first of `cs` that is a key of `show`. */
  function FirstPresent(cs: seq<string>, show: Fields): (r: Option<nat>)
    ensures r.None? <==> forall i :: 0 <= i < |cs| ==> cs[i] !in Keys(show)
    ensures r.Some? ==> r.value < |cs| && cs[r.value] in Keys(show)
    ensures r.Some? ==> forall i :: 0 <= i < r.value ==> cs[i] !in Keys(show)
  {
    if cs == [] then None
    else if cs[0] in Keys(show) then Some(0)
    else
      match FirstPresent(cs[1..], show)
      case None => None
      case Some(i) => Some(i + 1)
  }

  /** The index of the first entry of `show` whose key passes the fuzzy test. */
  function FirstFuzzy(show: Fields): (r: Option<nat>)
    ensures r.None? <==> forall i :: 0 <= i < |show| ==> !Fuzzy(show[i].0)
    ensures r.Some? ==> r.value < |show| && Fuzzy(show[r.value].0)
    ensures r.Some? ==> forall i :: 0 <= i < r.value ==> !Fuzzy(show[i].0)
  {
    if show == [] then None
    else if Fuzzy(show[0].0) then Some(0)
    else
      match FirstFuzzy(show[1..])
      case None => None
      case Some(i) => Some(i + 1)
  }

  /**
   * `_pick_show_value(show)`: `(key, value)`, or `None` for `(None, None)`.
   * The value is always what `show[key]` gives.
   */
  function PickShowValue(show: Fields): (r: Option<(string, Json)>)
    ensures r.Some? ==> Get(show, r.value.0) == Some(r.value.1)
    ensures r.Some? ==> Fuzzy(r.value.0) || r.value.0 in Candidates
  {
    match FirstPresent(Candidates, show)
    case Some(i) => Some((Candidates[i], Get(show, Candidates[i]).value))
    case None =>
      match FirstFuzzy(show)
      case Some(i) =>
        FirstEntryIsFirstKey(show, i);
        Some(show[i])
      case None => None
  }

  /** Every candidate passes the fuzzy test too. */
  lemma CandidatesFuzzy()
    ensures forall i :: 0 <= i < |Candidates| ==> Fuzzy(Candidates[i])
  {
    assert OccursAt(Candidates[0], "剩余", 2);
    assert OccursAt(Candidates[1], "剩余", 0);
    assert OccursAt(Candidates[2], "剩余", 2);
    ContainsAt(Candidates[0], "剩余");
    ContainsAt(Candidates[1], "剩余");
    ContainsAt(Candidates[2], "剩余");
  }

  /** If entry `i` is the first whose key passes the test, `show[key]` is its value. */
  lemma FirstEntryIsFirstKey(show: Fields, i: nat)
    requires i < |show| && Fuzzy(show[i].0)
    requires forall j :: 0 <= j < i ==> !Fuzzy(show[j].0)
    ensures Get(show, show[i].0) == Some(show[i].1)
  {
    if i > 0 {
      assert show[1..][i - 1] == show[i];
      FirstEntryIsFirstKey(show[1..], i - 1);
    }
  }

  /** The first listed candidate that is a key wins, whatever the order of `show`. */
  lemma PickCandidate(show: Fields, i: nat)
    requires i < |Candidates| && Candidates[i] in Keys(show)
    requires forall j :: 0 <= j < i ==> Candidates[j] !in Keys(show)
    ensures PickShowValue(show) == Some((Candidates[i], Get(show, Candidates[i]).value))
  {
  }

  /** With no candidate present, the first entry passing the fuzzy test wins. */
  lemma PickFuzzy(show: Fields, i: nat)
    requires forall j :: 0 <= j < |Candidates| ==> Candidates[j] !in Keys(show)
    requires i < |show| && Fuzzy(show[i].0)
    requires forall j :: 0 <= j < i ==> !Fuzzy(show[j].0)
    ensures PickShowValue(show) == Some(show[i])
  {
  }

  /** Nothing is picked exactly when no key passes the fuzzy test. */
  lemma PickNone(show: Fields)
    ensures PickShowValue(show).None? <==> forall i :: 0 <= i < |show| ==> !Fuzzy(show[i].0)
  {
    CandidatesFuzzy();
    if FirstPresent(Candidates, show).Some? {
      var i := FirstPresent(Candidates, show).value;
      var j :| 0 <= j < |show| && show[j].0 == Candidates[i];
      assert Fuzzy(show[j].0);
    }
  }

  // ---------------------------------------------------------------------
  // _to_float, up to the call of float()

  /** `s.replace(c, "")`. */
  function Remove(s: string, c: char): (r: string)
    ensures c !in r
    ensures forall x :: x in r <==> x in s && x != c
    ensures |r| <= |s|
  {
    if s == [] then []
    else if s[0] == c then Remove(s[1..], c)
    else [s[0]] + Remove(s[1..], c)
  }

  /** `replace` works piece by piece: removing from a concatenation removes from each part. */
  lemma {:induction false} RemoveAppend(a: string, b: string, c: char)
    ensures Remove(a + b, c) == Remove(a, c) + Remove(b, c)
  {
    if a == [] {
      assert a + b == b;
    } else {
      assert (a + b)[0] == a[0];
      assert (a + b)[1..] == a[1..] + b;
      RemoveAppend(a[1..], b, c);
    }
  }

  predicate IsSign(c: char) { c == '-' || c == '+' }

  /** The end of the run of digits starting at `i`. */
  function DigitRun(s: string, i: nat): (j: nat)
    requires i <= |s|
    ensures i <= j <= |s|
    ensures forall k :: i <= k < j ==> IsDigit(s[k])
    ensures j == |s| || !IsDigit(s[j])
    decreases |s| - i
  {
    if i < |s| && IsDigit(s[i]) then DigitRun(s, i + 1) else i
  }

  /** Where the digits of a match starting at `i` begin: past an optional sign. */
  function AfterSign(s: string, i: nat): (r: nat)
    requires i <= |s|
    ensures i <= r <= |s|
  {
    if i < |s| && IsSign(s[i]) then i + 1 else i
  }

  /** Where a match of `[-+]?\d+(?:\.\d+)?` that starts at `i` ends, if one does. */
  function NumberEnd(s: string, i: nat): (r: Option<nat>)
    requires i <= |s|
    ensures r.Some? ==> i < r.value <= |s|
  {
    var start := AfterSign(s, i);
    var e := DigitRun(s, start);
    if e == start then None
    else if e + 1 < |s| && s[e] == '.' && IsDigit(s[e + 1]) then Some(DigitRun(s, e + 1))
    else Some(e)
  }

  /** `re.search(r"[-+]?\d+(?:\.\d+)?", s)` from position `i`: the leftmost match. */
  function SearchNumber(s: string, i: nat): (r: Option<(nat, nat)>)
    requires i <= |s|
    ensures r.Some? ==> i <= r.value.0 < r.value.1 <= |s| && NumberEnd(s, r.value.0) == Some(r.value.1)
    ensures r.Some? ==> forall k :: i <= k < r.value.0 ==> NumberEnd(s, k).None?
    ensures r.None? ==> forall k :: i <= k <= |s| ==> NumberEnd(s, k).None?
    decreases |s| - i
  {
    match NumberEnd(s, i)
    case Some(e) => Some((i, e))
    case None => if i == |s| then None else SearchNumber(s, i + 1)
  }

  /** One or more decimal digits. */
  predicate Digits(t: string) {
    t != [] && forall k :: 0 <= k < |t| ==> IsDigit(t[k])
  }

  /** `\d+(?:\.\d+)?` matching a whole text. */
  predicate Unsigned(t: string) {
    if '.' in t then
      var (whole, frac) := SplitFirst(t, '.').value;
      Digits(whole) && Digits(frac)
    else Digits(t)
  }

  /** `[-+]?\d+(?:\.\d+)?` matching a whole text. */
  predicate NumberText(t: string) {
    Unsigned(t) || (t != [] && IsSign(t[0]) && Unsigned(t[1..]))
  }

  /** The text the number is read from: commas and fullwidth commas removed, stripped. */
  function Cleaned(s: string): (r: string)
    ensures ',' !in r && '，' !in r && IsStripped(r)
    ensures forall x :: x in r ==> x in s
  {
    var once := Remove(s, ',');
    var twice := Remove(once, '，');
    StripWithin(twice);
    Strip(twice)
  }

  /**
   * The matched number of a string reading, if there is one: a number
   * text, and there is none at all when nothing in the cleaned text is one.
   * `NumberInLeftmost` says which of them it is.
   */
  function NumberIn(s: string): (r: Option<string>)
    ensures r.Some? ==> NumberText(r.value)
    ensures r.None? ==> forall b, e :: 0 <= b < e <= |Cleaned(s)| ==> !NumberText(Cleaned(s)[b..e])
  {
    var c := Cleaned(s);
    match SearchNumber(c, 0)
    case Some((b, e)) =>
      NumberEndText(c, b);
      Some(c[b..e])
    case None =>
      NoNumberText(c);
      None
  }

  /** With no match anywhere, no part of the text is a number text. */
  lemma {:induction false} NoNumberText(c: string)
    requires SearchNumber(c, 0).None?
    ensures forall b, e :: 0 <= b < e <= |c| ==> !NumberText(c[b..e])
  {
    forall b, e | 0 <= b < e <= |c|
      ensures !NumberText(c[b..e])
    {
      if NumberText(c[b..e]) {
        NumberEndLongest(c, b, e);
      }
    }
  }

  /**
   * `re.search` semantics: of the number texts inside the cleaned reading,
   * the one found starts leftmost and, among those starting there, is the longest.
   */
  lemma {:induction false} NumberInLeftmost(s: string, b: nat, e: nat)
    requires b < e <= |Cleaned(s)| && NumberText(Cleaned(s)[b..e])
    ensures NumberIn(s).Some? && SearchNumber(Cleaned(s), 0).Some?
    ensures SearchNumber(Cleaned(s), 0).value.0 <= b
    ensures SearchNumber(Cleaned(s), 0).value.0 == b ==> e - b <= |NumberIn(s).value|
  {
    var c := Cleaned(s);
    NumberEndLongest(c, b, e);
  }

  /**
   * A match starting at `i` is the longest number text starting there:
   * whenever some text `s[i..j]` is one, the match exists and reaches `j`.
   */
  lemma {:induction false} NumberEndLongest(s: string, i: nat, j: nat)
    requires i < j <= |s| && NumberText(s[i..j])
    ensures NumberEnd(s, i).Some? && j <= NumberEnd(s, i).value
  {
    SignedParts(s, i, j);
    UnsignedLongest(s, AfterSign(s, i), j);
  }

  /** Past its optional sign, a number text is an unsigned one. */
  lemma SignedParts(s: string, i: nat, j: nat)
    requires i < j <= |s| && NumberText(s[i..j])
    ensures AfterSign(s, i) < j && Unsigned(s[AfterSign(s, i)..j])
  {
    var u := s[i..j];
    assert u[0] == s[i];
    if IsSign(s[i]) {
      SignNotUnsigned(u);
      assert u[1..] == s[i + 1..j];
    } else {
      assert u == s[i..j];
    }
  }

  /** The digit runs read from `st` cover an unsigned number text `s[st..j]`. */
  lemma {:induction false} UnsignedLongest(s: string, st: nat, j: nat)
    requires st < j <= |s| && Unsigned(s[st..j])
    ensures st < DigitRun(s, st)
    ensures var d := DigitRun(s, st);
      j <= d || (d + 1 < j && s[d] == '.' && IsDigit(s[d + 1]) && j <= DigitRun(s, d + 1))
  {
    var v := s[st..j];
    if '.' in v {
      SplitFirstParts(v, '.');
      var (whole, frac) := SplitFirst(v, '.').value;
      FractionLongest(s, st, j, whole, frac);
    } else {
      DigitsAt(s, st, v);
    }
  }

  /** The same for a number text with a fraction, given its two digit strings. */
  lemma FractionLongest(s: string, st: nat, j: nat, whole: string, frac: string)
    requires st < j <= |s| && s[st..j] == whole + ['.'] + frac && Digits(whole) && Digits(frac)
    ensures DigitRun(s, st) == st + |whole|
    ensures var m := st + |whole|;
      m + 1 < j && s[m] == '.' && IsDigit(s[m + 1]) && j <= DigitRun(s, m + 1)
  {
    var m := st + |whole|;
    var v := s[st..j];
    assert s[st..m] == v[..|whole|] == whole;
    DigitsAt(s, st, whole);
    assert s[m] == v[|whole|];
    DigitRunStops(s, st, m);
    assert s[m + 1..j] == v[|whole| + 1..] == frac;
    assert s[m + 1] == frac[0];
    DigitsAt(s, m + 1, frac);
  }

  /** A run of digits placed at `k` is read at least to its end. */
  lemma {:induction false} DigitsAt(s: string, k: nat, w: string)
    requires k + |w| <= |s| && s[k..k + |w|] == w && Digits(w)
    ensures DigitRun(s, k) >= k + |w|
  {
    assert forall x :: 0 <= x < |w| ==> s[k + x] == w[x];
  }

  /** No digit run reads past a position that holds no digit. */
  lemma DigitRunStops(s: string, k: nat, e: nat)
    requires k <= e <= |s| && (e == |s| || !IsDigit(s[e]))
    ensures DigitRun(s, k) <= e
  {
  }

  /**
   * The greedy direction: a number text at `i` that is not followed by a
   * digit (nor, when it has no fraction yet, by a dot and a digit) is
   * matched exactly.
   */
  lemma {:induction false} NumberEndExact(s: string, i: nat, t: string)
    requires i + |t| <= |s| && s[i..i + |t|] == t && NumberText(t)
    requires i + |t| == |s| || !IsDigit(s[i + |t|])
    requires '.' !in t ==> !(i + |t| + 1 < |s| && s[i + |t|] == '.' && IsDigit(s[i + |t| + 1]))
    ensures NumberEnd(s, i) == Some(i + |t|)
  {
    var e := i + |t|;
    SignedParts(s, i, e);
    UnsignedLongest(s, AfterSign(s, i), e);
    MatchEndsAt(s, i, e);
  }

  /** Digit runs that reach a stop at `e` make the match end exactly there. */
  lemma MatchEndsAt(s: string, i: nat, e: nat)
    requires i < e <= |s| && AfterSign(s, i) < e
    requires var st := AfterSign(s, i); var d := DigitRun(s, st);
      st < d && (e <= d || (d + 1 < e && s[d] == '.' && IsDigit(s[d + 1]) && e <= DigitRun(s, d + 1)))
    requires e == |s| || !IsDigit(s[e])
    requires '.' !in s[i..e] ==> !(e + 1 < |s| && s[e] == '.' && IsDigit(s[e + 1]))
    ensures NumberEnd(s, i) == Some(e)
  {
    var st := AfterSign(s, i);
    var d := DigitRun(s, st);
    DigitRunStops(s, st, e);
    if d < e {
      assert e <= DigitRun(s, d + 1);
      DigitRunStops(s, d + 1, e);
      assert DigitRun(s, d + 1) == e;
      FractionMatch(s, i, d);
    } else {
      NoDotInDigits(s, i, e);
      WholeDigitsMatch(s, i, d);
      assert NumberEnd(s, i) == Some(e);
    }
  }

  /** A sign followed by digits only holds no dot. */
  lemma NoDotInDigits(s: string, i: nat, e: nat)
    requires i < e <= |s| && AfterSign(s, i) <= e
    requires forall x :: AfterSign(s, i) <= x < e ==> IsDigit(s[x])
    ensures '.' !in s[i..e]
  {
    forall x | i <= x < e
      ensures s[x] != '.'
    {
      if x < AfterSign(s, i) {
        assert IsSign(s[x]);
      }
    }
    assert forall k :: 0 <= k < e - i ==> s[i..e][k] == s[i + k];
  }

  /** A match with a fraction ends where the digits after the dot end. */
  lemma FractionMatch(s: string, i: nat, d: nat)
    requires i <= |s| && d == DigitRun(s, AfterSign(s, i))
    requires d != AfterSign(s, i) && d + 1 < |s| && s[d] == '.' && IsDigit(s[d + 1])
    ensures NumberEnd(s, i) == Some(DigitRun(s, d + 1))
  {
  }

  /** A match without a fraction ends where its first digit run ends. */
  lemma WholeDigitsMatch(s: string, i: nat, d: nat)
    requires i <= |s| && d == DigitRun(s, AfterSign(s, i))
    requires d != AfterSign(s, i) && !(d + 1 < |s| && s[d] == '.' && IsDigit(s[d + 1]))
    ensures NumberEnd(s, i) == Some(d)
  {
  }

  /** What a match spans is a number text in the pattern's sense. */
  lemma NumberEndText(s: string, i: nat)
    requires i <= |s| && NumberEnd(s, i).Some?
    ensures NumberText(s[i..NumberEnd(s, i).value])
  {
    var e := NumberEnd(s, i).value;
    var start := AfterSign(s, i);
    var d := DigitRun(s, start);
    UnsignedSpan(s, start, d, e);
    if start == i + 1 {
      assert s[i..e][1..] == s[start..e];
    }
  }

  /** The part of a match after its sign is an unsigned number. */
  lemma UnsignedSpan(s: string, start: nat, d: nat, e: nat)
    requires start <= |s| && d == DigitRun(s, start) && start < d
    requires e == (if d + 1 < |s| && s[d] == '.' && IsDigit(s[d + 1]) then DigitRun(s, d + 1) else d)
    ensures Unsigned(s[start..e])
  {
    var whole := s[start..d];
    assert Digits(whole) by {
      assert forall k :: 0 <= k < |whole| ==> whole[k] == s[start + k];
    }
    assert '.' !in whole;
    if e == d {
      assert s[start..e] == whole;
    } else {
      var frac := s[d + 1..e];
      assert Digits(frac) by {
        assert forall k :: 0 <= k < |frac| ==> frac[k] == s[d + 1 + k];
      }
      assert s[start..e] == whole + ['.'] + frac;
      SplitFirstJoin(whole, '.', frac);
    }
  }

  /** An unsigned number text starting at `i` is read to its end. */
  lemma UnsignedFound(t: string, i: nat)
    requires i <= |t| && Unsigned(t[i..])
    ensures i < |t| && DigitRun(t, i) < |t| ==>
      DigitRun(t, i) + 1 < |t| && t[DigitRun(t, i)] == '.' && IsDigit(t[DigitRun(t, i) + 1]) &&
      DigitRun(t, DigitRun(t, i) + 1) == |t|
    ensures i < DigitRun(t, i)
  {
    var u := t[i..];
    if '.' in u {
      SplitFirstParts(u, '.');
      var (whole, frac) := SplitFirst(u, '.').value;
      FoundWithDot(t, i, whole, frac);
    } else {
      assert forall k :: i <= k < |t| ==> t[k] == u[k - i];
      DigitRunAll(t, i, |t|);
    }
  }

  /** The digits before and after the dot are read as two runs. */
  lemma FoundWithDot(t: string, i: nat, whole: string, frac: string)
    requires i <= |t| && t[i..] == whole + ['.'] + frac && Digits(whole) && Digits(frac)
    ensures DigitRun(t, i) == i + |whole|
    ensures DigitRun(t, i + |whole| + 1) == |t|
  {
    assert forall k :: 0 <= k < |whole| ==> t[i + k] == t[i..][k];
    assert t[i + |whole|] == t[i..][|whole|];
    DigitRunAll(t, i, i + |whole|);
    assert forall k :: i + |whole| + 1 <= k < |t| ==> t[k] == t[i..][k - i];
    DigitRunAll(t, i + |whole| + 1, |t|);
  }

  /** A reading that is a number text by itself yields exactly that text. */
  lemma NumberTextFound(t: string)
    requires NumberText(t)
    ensures NumberEnd(t, 0) == Some(|t|)
  {
    if Unsigned(t) && !(t != [] && IsSign(t[0])) {
      assert t[0..] == t;
      UnsignedFound(t, 0);
    } else if t != [] && IsSign(t[0]) {
      if Unsigned(t) {
        assert t[0] in t;
        SignNotUnsigned(t);
      }
      UnsignedFound(t, 1);
    }
  }

  /** An unsigned number does not start with a sign. */
  lemma SignNotUnsigned(t: string)
    requires t != [] && IsSign(t[0])
    ensures !Unsigned(t)
  {
    if '.' in t {
      SplitFirstParts(t, '.');
      var (whole, frac) := SplitFirst(t, '.').value;
      if whole != [] {
        assert whole[0] == t[0];
      }
    }
  }

  /** A run of digits up to a non-digit (or the end) is read to its end. */
  lemma {:induction false} DigitRunAll(s: string, i: nat, j: nat)
    requires i <= j <= |s|
    requires forall k :: i <= k < j ==> IsDigit(s[k])
    requires j == |s| || !IsDigit(s[j])
    ensures DigitRun(s, i) == j
    decreases j - i
  {
    if i < j {
      DigitRunAll(s, i + 1, j);
    }
  }

  /**
   * `_to_float(val)` up to the final `float(...)`: the decimal text the
   * reading is converted from. Ints and bools (a bool is an int to Python)
   * give their own decimal form; strings give the leftmost number in them.
   */
  function ToFloatText(val: Json): (r: Result<string, Failure>)
    ensures r.Err? ==> r.error.ValueError?
    ensures val.JStr? && r.Ok? ==> NumberText(r.value)
    ensures val.JStr? ==> (r.Ok? <==> NumberIn(val.s).Some?)
    ensures val.JStr? && r.Ok? ==> Some(r.value) == NumberIn(val.s)
    ensures val.JNum? ==> r == Ok(IntText(val.n))
    ensures val.JBool? ==> r == Ok(if val.b then "1" else "0")
    ensures !(val.JNum? || val.JBool? || val.JStr?) ==> r.Err?
  {
    match val
    case JNum(n) => Ok(IntText(n))
    case JBool(b) => Ok(if b then "1" else "0")
    case JStr(s) =>
      (match NumberIn(s)
       case Some(t) => Ok(t)
       case None => Err(ValueError("无法从值 " + Repr(val) + " 解析数值为 float")))
    case _ => Err(ValueError("无法从值 " + Repr(val) + " 解析数值为 float"))
  }

  /** A reading that is a plain number text comes back as itself. */
  lemma ToFloatTextNumber(t: string)
    requires NumberText(t) && ',' !in t && '，' !in t
    ensures ToFloatText(JStr(t)) == Ok(t)
  {
    RemoveAbsent(t, ',');
    RemoveAbsent(t, '，');
    NumberTextEnds(t);
    assert IsStripped(t);
    NumberTextFound(t);
    assert t[0..|t|] == t;
  }

  /** A number text neither starts nor ends with white space. */
  lemma NumberTextEnds(t: string)
    requires NumberText(t)
    ensures t != [] && !IsSpace(t[0]) && !IsSpace(t[|t| - 1])
  {
    var u := if Unsigned(t) then t else t[1..];
    assert Unsigned(u);
    assert u != [] && IsDigit(u[|u| - 1]) by {
      if '.' in u {
        SplitFirstParts(u, '.');
      }
    }
    assert t[|t| - 1] == u[|u| - 1];
  }

  lemma {:induction false} RemoveAbsent(s: string, c: char)
    requires c !in s
    ensures Remove(s, c) == s
  {
    if s != [] {
      RemoveAbsent(s[1..], c);
    }
  }

  // ---------------------------------------------------------------------
  // query_current_electricity

  /** The name `type(j).__name__` gives, for the AttributeError message. */
  function TypeName(j: Json): string {
    match j
    case JNull => "NoneType"
    case JBool(_) => "bool"
    case JNum(_) => "int"
    case JStr(_) => "str"
    case JArr(_) => "list"
    case JObj(_) => "dict"
  }

  /** `d.get(k, {})` on a value that must be a dict. */
  function GetOrEmpty(d: Json, k: string): (r: Result<Json, Failure>)
    ensures r.Err? <==> !d.JObj?
  {
    if !d.JObj? then Err(AttributeError(TypeName(d)))
    else
      match Get(d.fields, k)
      case Some(v) => Ok(v)
      case None => Ok(JObj([]))
  }

  /** `data.get("map", {}).get("showData", {})`. */
  function ShowData(data: Json): (r: Result<Json, Failure>)
    ensures r.Err? ==> r.error.AttributeError?
  {
    match GetOrEmpty(data, "map")
    case Err(e) => Err(e)
    case Ok(m) => GetOrEmpty(m, "showData")
  }

  /** `requests` raises for client and server error statuses. */
  predicate ErrorStatus(status: int) { 400 <= status < 600 }

  /**
   * `query_current_electricity` from its input onwards. `payload` is the
   * decoded input (`None` when it is not valid JSON); `status`, `body` (the
   * decoded response, `None` when it is not JSON) and `text` stand for the
   * HTTP exchange. The result is the decimal text handed to `float`.
   */
  function Query(payload: Option<Json>, status: int, body: Option<Json>, text: string): (r: Result<string, Failure>)
    ensures payload.None? ==> r.Err? && r.error.ValueError?
    ensures payload.Some? && !payload.value.JObj? ==> r.Err? && r.error.AttributeError?
    ensures r.Ok? ==> body.Some? && !ErrorStatus(status)
  {
    match payload
    case None => Err(ValueError("payload_json 不是有效 JSON"))
    case Some(p) =>
      if !p.JObj? then Err(AttributeError(TypeName(p)))
      else if Missing(Keys(p.fields)) != [] then Err(KeyError(MissingMessage(Keys(p.fields))))
      else if ErrorStatus(status) then Err(HttpError(status))
      else
        match body
        case None => Err(ValueError("接口返回非 JSON：" + SafePreview(text, 300)))
        case Some(data) =>
          match ShowData(data)
          case Err(e) => Err(e)
          case Ok(show) =>
            if !show.JObj? || show.fields == [] then
              Err(KeyError("返回 JSON 中找不到 showData，实际：" + Repr(show)))
            else
              match PickShowValue(show.fields)
              case Some((_, v)) =>
                if v == JNull then Err(KeyError("返回 JSON 中找不到电量字段，showData=" + Repr(show)))
                else ToFloatText(v)
              case None => Err(KeyError("返回 JSON 中找不到电量字段，showData=" + Repr(show)))
  }

  /** A decoded dict payload fails with the missing-field KeyError exactly
      when a required field is absent, and the message lists them sorted. */
  lemma QueryMissingFields(fields: Fields, status: int, body: Option<Json>, text: string)
    ensures (exists x :: x in Required && x !in Keys(fields)) <==>
      Query(Some(JObj(fields)), status, body, text) == Err(KeyError(MissingMessage(Keys(fields))))
  {
    var m := Missing(Keys(fields));
    if exists x :: x in Required && x !in Keys(fields) {
      var x :| x in Required && x !in Keys(fields);
      assert x in m;
    } else {
      assert m == [] by {
        if m != [] {
          HeadIn(m);
          assert false;
        }
      }
      QueryMessageNotMissing(fields, status, body, text);
    }
  }

  /** With every field present, no later error can carry the missing-field message. */
  lemma QueryMessageNotMissing(fields: Fields, status: int, body: Option<Json>, text: string)
    requires Missing(Keys(fields)) == []
    ensures Query(Some(JObj(fields)), status, body, text) != Err(KeyError(MissingMessage(Keys(fields))))
  {
    var r := Query(Some(JObj(fields)), status, body, text);
    assert MissingMessage(Keys(fields)) == "缺少字段：";
    if !ErrorStatus(status) && body.Some? && ShowData(body.value).Ok? {
      var show := ShowData(body.value).value;
      if show.JObj? && show.fields != [] && PickShowValue(show.fields).Some? {
        var v := PickShowValue(show.fields).value.1;
        if v != JNull {
          assert r == ToFloatText(v);
        } else {
          assert r.error.msg[0] == '返';
        }
      } else {
        assert r.error.msg[0] == '返';
      }
    }
  }

  /** An absent, empty or non-dict `showData` ends in a KeyError. */
  lemma QueryShowDataMissing(payload: Fields, status: int, data: Json, text: string)
    requires Missing(Keys(payload)) == [] && !ErrorStatus(status)
    requires ShowData(data).Ok?
    requires !ShowData(data).value.JObj? || ShowData(data).value.fields == []
    ensures Query(Some(JObj(payload)), status, Some(data), text).Err?
    ensures Query(Some(JObj(payload)), status, Some(data), text).error.KeyError?
  {
  }

  /**
   * A successful query went through every check: a dict payload with all
   * required fields, a non-error status, a dict response whose `showData`
   * is a non-empty dict, and a picked reading that is not null and converts.
   */
  lemma QuerySuccess(payload: Option<Json>, status: int, body: Option<Json>, text: string)
    requires Query(payload, status, body, text).Ok?
    ensures payload.Some? && payload.value.JObj?
    ensures forall x :: x in Required ==> x in Keys(payload.value.fields)
    ensures !ErrorStatus(status) && body.Some?
    ensures ShowData(body.value).Ok? && ShowData(body.value).value.JObj?
    ensures ShowData(body.value).value.fields != []
    ensures var pick := PickShowValue(ShowData(body.value).value.fields);
      pick.Some? && pick.value.1 != JNull &&
      Query(payload, status, body, text) == ToFloatText(pick.value.1)
  {
    var keys := Keys(payload.value.fields);
    assert Missing(keys) == [];
  }
}
