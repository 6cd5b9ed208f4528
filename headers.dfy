/**
 * Reading `headers.txt`: each line `Name: value` becomes one entry of a
 * Python dict, filled line by line. The three scripts read the file with
 * three slightly different loops; all of them split a line at its first
 * colon, strip both halves, and let a later line overwrite an earlier one
 * with the same name.
 */
module Headers {
  import opened Wrappers
  import opened Text

  /** A dict from header names to values, in insertion order. */
  type Dict = seq<(string, string)>

  function Names(d: Dict): set<string> {
    if d == [] then {} else {d[0].0} + Names(d[1..])
  }

  /** No name occurs twice, as in any Python dict. */
  predicate DistinctNames(d: Dict) {
    d == [] || (d[0].0 !in Names(d[1..]) && DistinctNames(d[1..]))
  }

  /** `d.get(k)`. */
  function Lookup(d: Dict, k: string): (r: Option<string>)
    ensures r.None? <==> k !in Names(d)
    ensures r.Some? ==> exists i :: 0 <= i < |d| && d[i] == (k, r.value)
  {
    if d == [] then None
    else if d[0].0 == k then Some(d[0].1)
    else
      var r := Lookup(d[1..], k);
      assert r.Some? ==> exists i :: 0 <= i < |d| && d[i] == (k, r.value) by {
        if r.Some? {
          var i :| 0 <= i < |d[1..]| && d[1..][i] == (k, r.value);
          assert d[i + 1] == (k, r.value);
        }
      }
      r
  }

  /**
   * `d[k] = v`: an existing entry keeps its place and takes the new value;
   * a new name is appended at the end.
   */
  function Put(d: Dict, k: string, v: string): (r: Dict)
    ensures Names(r) == Names(d) + {k}
    ensures Lookup(r, k) == Some(v)
    ensures k in Names(d) ==> |r| == |d|
    ensures k !in Names(d) ==> r == d + [(k, v)]
  {
    if d == [] then [(k, v)]
    else if d[0].0 == k then [(k, v)] + d[1..]
    else
      var rest := Put(d[1..], k, v);
      assert ([d[0]] + rest)[1..] == rest;
      [d[0]] + rest
  }

  /** Setting one name leaves every other name's value as it was. */
  lemma {:induction false} PutOther(d: Dict, k: string, v: string, k': string)
    requires k' != k
    ensures Lookup(Put(d, k, v), k') == Lookup(d, k')
  {
    if d != [] && d[0].0 != k {
      PutOther(d[1..], k, v, k');
      assert Put(d, k, v)[1..] == Put(d[1..], k, v);
    }
  }

  /** Setting a name keeps the entries in their order and their names distinct. */
  lemma {:induction false} PutOrder(d: Dict, k: string, v: string)
    requires DistinctNames(d)
    ensures DistinctNames(Put(d, k, v))
    ensures k in Names(d) ==> forall i :: 0 <= i < |d| ==> Put(d, k, v)[i].0 == d[i].0
  {
    if d != [] {
      var r := Put(d, k, v);
      if d[0].0 != k {
        PutOrder(d[1..], k, v);
        assert r[1..] == Put(d[1..], k, v);
      } else {
        assert r[1..] == d[1..];
      }
    }
  }

  lemma {:induction false} NamesIn(d: Dict)
    ensures forall i :: 0 <= i < |d| ==> d[i].0 in Names(d)
    ensures forall k :: k in Names(d) ==> exists i :: 0 <= i < |d| && d[i].0 == k
  {
    if d != [] {
      NamesIn(d[1..]);
      forall k | k in Names(d) ensures exists i :: 0 <= i < |d| && d[i].0 == k {
        if k != d[0].0 {
          var i :| 0 <= i < |d[1..]| && d[1..][i].0 == k;
          assert d[i + 1].0 == k;
        }
      }
    }
  }

  // ---------------------------------------------------------------------
  // One line of the file and the loop over all of them

  /** What one line contributes: nothing, one entry, or nothing because it
      has no colon (which one of the scripts treats as an error). */
  datatype LineAction = Skip | Assign(name: string, value: string) | Malformed

  /** The loop body: one line's effect on the dict. */
  function Apply(d: Dict, a: LineAction): (r: Dict)
    ensures DistinctNames(d) ==> DistinctNames(r)
    ensures !a.Assign? ==> r == d
  {
    match a
    case Assign(k, v) =>
      if DistinctNames(d) then PutOrder(d, k, v); Put(d, k, v) else Put(d, k, v)
    case _ => d
  }

  /** The entries the loop has built after the given lines. */
  function Fold(acts: seq<LineAction>): (d: Dict)
    ensures DistinctNames(d)
  {
    if acts == [] then [] else Apply(Fold(acts[..|acts| - 1]), acts[|acts| - 1])
  }

  predicate AssignsAt(acts: seq<LineAction>, i: int, k: string) {
    0 <= i < |acts| && acts[i].Assign? && acts[i].name == k
  }

  /** Line `i` is the last line that sets `k`. */
  predicate LastAssign(acts: seq<LineAction>, i: int, k: string) {
    AssignsAt(acts, i, k) && forall j :: i < j < |acts| ==> !AssignsAt(acts, j, k)
  }

  /** Unfolding `Fold` once: the dict after one more line. */
  lemma FoldStep(acts: seq<LineAction>, a: LineAction)
    ensures Fold(acts + [a]) == Apply(Fold(acts), a)
  {
    assert (acts + [a])[..|acts|] == acts;
  }

  /** The dict holds exactly the names some line sets. */
  lemma {:induction false} FoldNames(acts: seq<LineAction>, k: string)
    ensures k in Names(Fold(acts)) <==> exists i :: AssignsAt(acts, i, k)
  {
    if acts != [] {
      var n := |acts| - 1;
      var init := acts[..n];
      assert acts == init + [acts[n]];
      FoldStep(init, acts[n]);
      FoldNames(init, k);
      if exists i :: AssignsAt(init, i, k) {
        var i :| AssignsAt(init, i, k);
        assert AssignsAt(acts, i, k);
      }
      if exists i :: AssignsAt(acts, i, k) {
        var i :| AssignsAt(acts, i, k);
        if i < n {
          assert AssignsAt(init, i, k);
        } else {
          assert Fold(acts) == Put(Fold(init), k, acts[n].value);
        }
      } else {
        assert !AssignsAt(acts, n, k);
      }
    }
  }

  /** The value of a name is the one the last line setting it gave: a later
      duplicate overwrites an earlier one. */
  lemma {:induction false} FoldLookup(acts: seq<LineAction>, i: int, k: string)
    requires LastAssign(acts, i, k)
    ensures Lookup(Fold(acts), k) == Some(acts[i].value)
  {
    var n := |acts| - 1;
    var init := acts[..n];
    assert acts == init + [acts[n]];
    FoldStep(init, acts[n]);
    if i < n {
      assert LastAssign(init, i, k) by {
        forall j | i < j < |init| ensures !AssignsAt(init, j, k) {
          assert !AssignsAt(acts, j, k);
        }
      }
      FoldLookup(init, i, k);
      assert !AssignsAt(acts, n, k);
      if acts[n].Assign? {
        PutOther(Fold(init), acts[n].name, acts[n].value, k);
      }
    }
  }

  // ---------------------------------------------------------------------
  // How each script reads one line

  /** `k.strip()` and `v.strip()` of `line.split(":", 1)`; `None` without a colon. */
  function SplitHeader(text: string): (r: Option<(string, string)>)
    ensures r.None? <==> ':' !in text
    ensures r.Some? ==> IsStripped(r.value.0) && IsStripped(r.value.1)
  {
    match SplitFirst(text, ':')
    case None => None
    case Some((k, v)) => Some((Strip(k), Strip(v)))
  }

  /**
   * The reading in getCharge/dianfei_core.py and getCharge/main.py: the
   * stripped line is skipped when blank or a `#` comment; otherwise it must
   * hold a colon, and it is split at the first one.
   */
  function CommentedLine(line: string): (a: LineAction)
    ensures a == Skip <==> Strip(line) == "" || "#" <= Strip(line)
    ensures a == Malformed <==> Strip(line) != "" && !("#" <= Strip(line)) && ':' !in Strip(line)
    ensures a.Assign? ==> SplitHeader(Strip(line)) == Some((a.name, a.value))
    ensures a.Assign? ==> IsStripped(a.name) && IsStripped(a.value)
  {
    var t := Strip(line);
    if t == "" || "#" <= t then Skip
    else match SplitHeader(t)
      case None => Malformed
      case Some((k, v)) => Assign(k, v)
  }

  /** Header names that `requests` sets by itself for a multipart post. */
  const AutoHeaders: set<string> := {"host", "connection", "content-length", "content-type"}

  /**
   * The reading in getCharge/fetch_rooms.py: no comment syntax, colon-less
   * lines are dropped, and so is any header `requests` manages itself;
   * any other line is split at its first colon.
   */
  function CatalogLine(line: string): (a: LineAction)
    ensures a == Skip <==> (Strip(line) == "" ||
      (':' in Strip(line) && Strip(Lower(SplitFirst(Strip(line), ':').value.0)) in AutoHeaders))
    ensures a == Malformed <==> Strip(line) != "" && ':' !in Strip(line)
    ensures a.Assign? ==> SplitHeader(Strip(line)) == Some((a.name, a.value))
  {
    var t := Strip(line);
    if t == "" then Skip
    else match SplitFirst(t, ':')
      case None => Malformed
      case Some((k, v)) =>
        if Strip(Lower(k)) in AutoHeaders then Skip else Assign(Strip(k), Strip(v))
  }

  /** What each line contributes, read the way `read` says. */
  function Actions(lines: seq<string>, read: string -> LineAction): (acts: seq<LineAction>)
    ensures |acts| == |lines|
  {
    seq(|lines|, i requires 0 <= i < |lines| => read(lines[i]))
  }

  /**
   * A line written as `name:value`, with a colon-free, non-comment name and
   * a value without surrounding blanks, is read back as exactly that entry.
   */
  lemma HeaderLineRoundTrip(name: string, value: string)
    requires name != [] && IsStripped(name) && ':' !in name && name[0] != '#'
    requires IsStripped(value)
    ensures CommentedLine(name + ":" + value) == Assign(name, value)
  {
    var line := name + ":" + value;
    assert IsStripped(line);
    SplitFirstJoin(name, ':', value);
  }

  /** fetch_rooms.load_headers never keeps a header that `requests` manages. */
  lemma CatalogSkipsAutoHeaders(lines: seq<string>, k: string)
    requires k in Names(Fold(Actions(lines, CatalogLine)))
    ensures Lower(k) !in AutoHeaders
  {
    var acts := Actions(lines, CatalogLine);
    FoldNames(acts, k);
    var i :| AssignsAt(acts, i, k);
    var t := Strip(lines[i]);
    var split := SplitFirst(t, ':');
    assert t != "" && split.Some?;
    var raw := split.value.0;
    assert Strip(Lower(raw)) !in AutoHeaders && k == Strip(raw);
    LowerStrip(raw);
  }

  // ---------------------------------------------------------------------
  // The loops themselves

  /** The loop the scripts share: read each line and set the entry it names. */
  method LoadLines(lines: seq<string>, read: string -> LineAction) returns (hdr: Dict)
    ensures hdr == Fold(Actions(lines, read))
  {
    ghost var acts := Actions(lines, read);
    hdr := [];
    var i := 0;
    while i < |lines|
      invariant 0 <= i <= |lines|
      invariant hdr == Fold(acts[..i])
    {
      var a := read(lines[i]);
      assert a == acts[i];
      assert acts[..i + 1] == acts[..i] + [a];
      FoldStep(acts[..i], a);
      match a {
        case Assign(k, v) => hdr := Put(hdr, k, v);
        case _ =>
      }
      i := i + 1;
    }
    assert acts[..i] == acts;
  }

  /** The same loop stopped by the first malformed line, whose index is
      returned in place of the dict. */
  method LoadLinesStrict(lines: seq<string>, read: string -> LineAction) returns (r: Result<Dict, nat>)
    ensures r.Ok? ==> r.value == Fold(Actions(lines, read))
    ensures r.Ok? ==> forall i :: 0 <= i < |lines| ==> read(lines[i]) != Malformed
    ensures r.Err? ==> r.error < |lines| && read(lines[r.error]) == Malformed
    ensures r.Err? ==> forall i :: 0 <= i < r.error ==> read(lines[i]) != Malformed
  {
    ghost var acts := Actions(lines, read);
    var hdr := [];
    var i := 0;
    while i < |lines|
      invariant 0 <= i <= |lines|
      invariant hdr == Fold(acts[..i])
      invariant forall j :: 0 <= j < i ==> acts[j] != Malformed
    {
      var a := read(lines[i]);
      assert a == acts[i];
      assert acts[..i + 1] == acts[..i] + [a];
      FoldStep(acts[..i], a);
      if a == Malformed {
        assert forall j :: 0 <= j < i ==> acts[j] == read(lines[j]);
        r := Err(i);
        return;
      }
      hdr := Apply(hdr, a);
      i := i + 1;
    }
    assert acts[..i] == acts;
    assert forall j :: 0 <= j < |lines| ==> acts[j] == read(lines[j]);
    r := Ok(hdr);
  }

  /** `_load_headers_from_file` in getCharge/dianfei_core.py: a colon-less
      line is logged and skipped. */
  method LoadCoreHeaders(lines: seq<string>) returns (hdr: Dict)
    ensures hdr == Fold(Actions(lines, CommentedLine))
  {
    hdr := LoadLines(lines, CommentedLine);
  }

  /** `load_headers` in getCharge/fetch_rooms.py. */
  method LoadCatalogHeaders(lines: seq<string>) returns (headers: Dict)
    ensures headers == Fold(Actions(lines, CatalogLine))
  {
    headers := LoadLines(lines, CatalogLine);
  }

  /**
   * `load_headers` in getCharge/main.py: a non-blank, non-comment line
   * without a colon makes `key, val = line.split(":", 1)` raise ValueError;
   * the error carries the index of that first line.
   */
  method LoadMonitorHeaders(lines: seq<string>) returns (r: Result<Dict, nat>)
    ensures r.Ok? ==> r.value == Fold(Actions(lines, CommentedLine))
    ensures r.Ok? ==> forall i :: 0 <= i < |lines| ==> CommentedLine(lines[i]) != Malformed
    ensures r.Err? ==> r.error < |lines| && CommentedLine(lines[r.error]) == Malformed
    ensures r.Err? ==> forall i :: 0 <= i < r.error ==> CommentedLine(lines[i]) != Malformed
  {
    r := LoadLinesStrict(lines, CommentedLine);
  }
}
