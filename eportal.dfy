/**
 * autoLoginInternet/main.py: the query of the campus portal login, the
 * unwrapping of its JSONP answer, the test for a successful login and the
 * normalisation of the configuration file's content to a list.
 */
module Eportal {
  import opened Wrappers
  import opened Text
  import opened PyJson
  import opened Headers

  /** The six arguments of `login_eportal` taken from one configuration. */
  datatype Credential = Credential(
    username: string, password: string,
    wlanUserIp: string, wlanUserMac: string,
    wlanAcIp: string, wlanAcName: string)

  /**
   * `params` of `login_eportal`. `ts` is the millisecond clock reading
   * `int(time.time() * 1000)`, which is a parameter here.
   */
  function LoginParams(cred: Credential, ts: nat): (params: Dict)
    ensures |params| == 12
  {
    var stamp := NatText(ts);
    [ ("c", "Portal"),
      ("a", "login"),
      ("login_method", "1"),
      ("user_account", cred.username),
      ("user_password", cred.password),
      ("wlan_user_ip", cred.wlanUserIp),
      ("wlan_user_mac", cred.wlanUserMac),
      ("wlan_ac_ip", cred.wlanAcIp),
      ("wlan_ac_name", cred.wlanAcName),
      ("jsVersion", "3.0"),
      ("callback", "dr" + stamp),
      ("_", stamp) ]
  }

  /** An entry whose name no earlier entry has is what a lookup finds. */
  lemma {:induction false} LookupAt(d: Dict, i: nat)
    requires i < |d| && forall j :: 0 <= j < i ==> d[j].0 != d[i].0
    ensures Lookup(d, d[i].0) == Some(d[i].1)
  {
    if i > 0 {
      assert d[1..][i - 1] == d[i];
      LookupAt(d[1..], i - 1);
    }
  }

  /** Every name of the query is used once. */
  lemma LoginParamsDistinct(cred: Credential, ts: nat)
    ensures var params := LoginParams(cred, ts);
      forall i, j :: 0 <= i < j < |params| ==> params[i].0 != params[j].0
  {
  }

  /** The query carries the four fixed values, whatever the arguments are. */
  lemma LoginParamsFixed(cred: Credential, ts: nat)
    ensures var params := LoginParams(cred, ts);
      && Lookup(params, "c") == Some("Portal")
      && Lookup(params, "a") == Some("login")
      && Lookup(params, "login_method") == Some("1")
      && Lookup(params, "jsVersion") == Some("3.0")
  {
    var params := LoginParams(cred, ts);
    LoginParamsDistinct(cred, ts);
    LookupAt(params, 0);
    LookupAt(params, 1);
    LookupAt(params, 2);
    LookupAt(params, 9);
  }

  /** The query carries the account name and password unchanged. */
  lemma LoginParamsAccount(cred: Credential, ts: nat)
    ensures var params := LoginParams(cred, ts);
      && Lookup(params, "user_account") == Some(cred.username)
      && Lookup(params, "user_password") == Some(cred.password)
  {
    var params := LoginParams(cred, ts);
    LoginParamsDistinct(cred, ts);
    LookupAt(params, 3);
    LookupAt(params, 4);
  }

  /** The query carries the four access-point arguments unchanged. */
  lemma LoginParamsWlan(cred: Credential, ts: nat)
    ensures var params := LoginParams(cred, ts);
      && Lookup(params, "wlan_user_ip") == Some(cred.wlanUserIp)
      && Lookup(params, "wlan_user_mac") == Some(cred.wlanUserMac)
      && Lookup(params, "wlan_ac_ip") == Some(cred.wlanAcIp)
      && Lookup(params, "wlan_ac_name") == Some(cred.wlanAcName)
  {
    var params := LoginParams(cred, ts);
    LoginParamsDistinct(cred, ts);
    LookupAt(params, 5);
    LookupAt(params, 6);
    LookupAt(params, 7);
    LookupAt(params, 8);
  }

  /** `callback` and `_` come from one clock reading: `_` is its decimal
      digits, which read back as `ts`, and `callback` is them behind `dr`. */
  lemma LoginParamsStamp(cred: Credential, ts: nat)
    ensures var params := LoginParams(cred, ts);
      && Lookup(params, "_").Some? && Lookup(params, "callback").Some?
      && Lookup(params, "callback").value == "dr" + Lookup(params, "_").value
      && (forall i :: 0 <= i < |Lookup(params, "_").value| ==> IsDigit(Lookup(params, "_").value[i]))
      && DigitsValue(Lookup(params, "_").value) == ts
  {
    var params := LoginParams(cred, ts);
    LoginParamsDistinct(cred, ts);
    LookupAt(params, 10);
    LookupAt(params, 11);
    NatTextRoundTrip(ts);
  }

  // ---------------------------------------------------------------------
  // re.match(r"[^(]+\((.*)\)", text)

  /** The length of the first line of `s`: the index of the first line break, or `|s|`. */
  function LineEnd(s: string): (n: nat)
    ensures n <= |s| && '\n' !in s[..n]
    ensures n == |s| || s[n] == '\n'
  {
    if s == [] || s[0] == '\n' then 0
    else
      var n := LineEnd(s[1..]);
      assert s[..n + 1] == [s[0]] + s[1..][..n];
      n + 1
  }

  /** The index of the last `)` in `s[..j]`, scanning back from `j`. */
  function LastClose(s: string, j: nat): (r: Option<nat>)
    requires j <= |s|
    ensures r.None? ==> ')' !in s[..j]
    ensures r.Some? ==> r.value < j && s[r.value] == ')' && ')' !in s[r.value + 1..j]
  {
    if j == 0 then None
    else if s[j - 1] == ')' then Some(j - 1)
    else
      var r := LastClose(s, j - 1);
      assert s[..j] == s[..j - 1] + [s[j - 1]];
      assert r.Some? ==> s[r.value + 1..j] == s[r.value + 1..j - 1] + [s[j - 1]];
      r
  }

  /** Why a login attempt failed. */
  datatype PortalError = HttpError(status: int) | NotJsonp

  /**
   * The JSONP payload: after a non-empty run without `(` comes the first
   * `(`; the payload runs from there to the last `)` before the next line
   * break (`.` does not match one); what follows that `)` is ignored.
   */
  function Unwrap(text: string): (r: Result<string, PortalError>)
    ensures r.Err? ==> r.error == NotJsonp
  {
    match SplitFirst(text, '(')
    case None => Err(NotJsonp)
    case Some((ident, after)) =>
      if ident == [] then Err(NotJsonp)
      else
        match LastClose(after, LineEnd(after))
        case None => Err(NotJsonp)
        case Some(c) => Ok(after[..c])
  }

  /**
   * What an unwrapped answer is made of: a non-empty callback name without
   * `(`, the `(`, the payload on one line, a `)`, and a rest with no `)`
   * on its first line.
   */
  predicate Wrapped(text: string, ident: string, payload: string, rest: string) {
    && text == ident + "(" + payload + ")" + rest
    && ident != [] && '(' !in ident
    && '\n' !in payload
    && ')' !in rest[..LineEnd(rest)]
  }

  /** A first line that starts with a text free of line breaks runs on past it. */
  lemma {:induction false} LineEndAppend(a: string, b: string)
    requires '\n' !in a
    ensures LineEnd(a + b) == |a| + LineEnd(b)
  {
    if a == [] {
      assert a + b == b;
    } else {
      assert (a + b)[1..] == a[1..] + b;
      LineEndAppend(a[1..], b);
    }
  }

  /** Every payload found comes from such a text. */
  lemma UnwrapSound(text: string)
    requires Unwrap(text).Ok?
    ensures exists ident, rest :: Wrapped(text, ident, Unwrap(text).value, rest)
  {
    var ident, after, c := UnwrapParts(text);
    WrappedFromParts(ident, after, c);
  }

  /** A name, a `(` and a text whose first line holds a last `)` make up a
      wrapped answer around what comes before that `)`. */
  lemma WrappedFromParts(ident: string, after: string, c: nat)
    requires ident != [] && '(' !in ident
    requires c < LineEnd(after) && after[c] == ')' && ')' !in after[c + 1..LineEnd(after)]
    ensures Wrapped(ident + ['('] + after, ident, after[..c], after[c + 1..])
  {
    var payload, rest := after[..c], after[c + 1..];
    assert after == payload + [')'] + rest;
    Reassemble(ident, payload, rest);
    AfterClose(after, c);
  }

  /** The pieces `Unwrap` cut a text into when it succeeds. */
  lemma UnwrapParts(text: string) returns (ident: string, after: string, c: nat)
    requires Unwrap(text).Ok?
    ensures text == ident + ['('] + after && ident != [] && '(' !in ident
    ensures c < LineEnd(after) && after[c] == ')' && ')' !in after[c + 1..LineEnd(after)]
    ensures Unwrap(text).value == after[..c]
  {
    SplitFirstParts(text, '(');
    ident, after := SplitFirst(text, '(').value.0, SplitFirst(text, '(').value.1;
    c := LastClose(after, LineEnd(after)).value;
  }

  lemma Reassemble(ident: string, payload: string, rest: string)
    ensures ident + ['('] + (payload + [')'] + rest) == ident + "(" + payload + ")" + rest
  {
  }

  /** Cutting the first line at a `)` on it with no `)` after it: the part
      before is on that line, and the rest holds no `)` on its first line. */
  lemma AfterClose(after: string, c: nat)
    requires c < LineEnd(after) && after[c] == ')' && ')' !in after[c + 1..LineEnd(after)]
    ensures '\n' !in after[..c]
    ensures ')' !in after[c + 1..][..LineEnd(after[c + 1..])]
  {
    var e := LineEnd(after);
    var payload, rest := after[..c], after[c + 1..];
    assert payload == after[..e][..c];
    CutAt(after, c);
    LineEndAppend(payload + [')'], rest);
    assert rest[..LineEnd(rest)] == after[c + 1..e];
  }

  lemma CutAt(s: string, c: nat)
    requires c < |s|
    ensures s == s[..c] + [s[c]] + s[c + 1..]
  {
  }

  /** The payload comes back from any such text, even one holding `(` and `)`. */
  lemma UnwrapRoundTrip(ident: string, payload: string, rest: string)
    requires ident != [] && '(' !in ident && '\n' !in payload
    requires ')' !in rest[..LineEnd(rest)]
    ensures Unwrap(ident + "(" + payload + ")" + rest) == Ok(payload)
  {
    var text := ident + "(" + payload + ")" + rest;
    var after := payload + [')'] + rest;
    Reassemble(ident, payload, rest);
    SplitFirstJoin(ident, '(', after);
    CloseFound(payload, rest);
    assert after[..|payload|] == payload;
  }

  /** After the `(`, the `)` that closes the payload is the last one on the line. */
  lemma CloseFound(payload: string, rest: string)
    requires '\n' !in payload && ')' !in rest[..LineEnd(rest)]
    ensures var after := payload + [')'] + rest;
      LastClose(after, LineEnd(after)) == Some(|payload|)
  {
    var after := payload + [')'] + rest;
    LineEndAppend(payload + [')'], rest);
    var e := LineEnd(after);
    assert after[|payload| + 1..e] == rest[..LineEnd(rest)];
    LastCloseIs(after, e, |payload|);
  }

  /** The last `)` is the one with none after it. */
  lemma {:induction false} LastCloseIs(s: string, j: nat, c: nat)
    requires c < j <= |s| && s[c] == ')'
    requires ')' !in s[c + 1..j]
    ensures LastClose(s, j) == Some(c)
  {
    if j - 1 != c {
      assert s[j - 1] == s[c + 1..j][j - 2 - c];
      assert s[c + 1..j - 1] == s[c + 1..j][..j - 2 - c];
      LastCloseIs(s, j - 1, c);
    }
  }

  /** The three ways the match fails, and no other: no `(`, a `(` first,
      or no `)` on the line after the first `(`. */
  lemma UnwrapFails(text: string)
    ensures Unwrap(text).Err? <==>
      || '(' !in text
      || text[0] == '('
      || (var after := SplitFirst(text, '(').value.1; ')' !in after[..LineEnd(after)])
  {
    if '(' in text {
      SplitFirstParts(text, '(');
    }
  }

  // ---------------------------------------------------------------------
  // login_eportal and the success test of the main loop

  /** `requests` raises for client and server error statuses. */
  predicate ErrorStatus(status: int) { 400 <= status < 600 }

  /**
   * `login_eportal` from the answer on: `status` and `text` stand for the
   * HTTP response. The result is the text handed to `json.loads`.
   */
  function LoginEportal(status: int, text: string): (r: Result<string, PortalError>)
    ensures ErrorStatus(status) ==> r == Err(HttpError(status))
    ensures r.Err? && !ErrorStatus(status) ==> r.error == NotJsonp
    ensures r.Ok? ==> exists ident, rest :: Wrapped(text, ident, r.value, rest)
  {
    if ErrorStatus(status) then Err(HttpError(status))
    else if Unwrap(text).Ok? then UnwrapSound(text); Unwrap(text)
    else Unwrap(text)
  }

  /** How one attempt of the main loop ends: logged as a success, the
      result printed, or an exception logged. */
  datatype Outcome = LoggedIn | Printed(result: Json) | Raised

  /**
   * One attempt of the main loop. `decode` stands for `json.loads`
   * (`None` for text that is not JSON). The test is
   * `result.get("result") == '1'`, so the result must be a dict.
   */
  function Attempt(status: int, text: string, decode: string -> Option<Json>): (o: Outcome)
    ensures o.Printed? ==> o.result.JObj?
  {
    match LoginEportal(status, text)
    case Err(_) => Raised
    case Ok(inner) =>
      match decode(inner)
      case None => Raised
      case Some(result) =>
        if !result.JObj? then Raised
        else if Get(result.fields, "result") == Some(JStr("1")) then LoggedIn
        else Printed(result)
  }

  /** A login succeeds exactly when the portal answered a dict whose
      `result` is the text `'1'`. */
  lemma AttemptSuccess(status: int, text: string, decode: string -> Option<Json>)
    ensures Attempt(status, text, decode) == LoggedIn <==>
      && !ErrorStatus(status) && Unwrap(text).Ok?
      && decode(Unwrap(text).value).Some?
      && decode(Unwrap(text).value).value.JObj?
      && Get(decode(Unwrap(text).value).value.fields, "result") == Some(JStr("1"))
  {
  }

  /** The number 1, or no `result` at all, is not a success. */
  lemma AttemptNotSuccess(status: int, text: string, decode: string -> Option<Json>)
    requires !ErrorStatus(status) && Unwrap(text).Ok?
    requires decode(Unwrap(text).value) == Some(JObj([("result", JNum(1))])) ||
             decode(Unwrap(text).value) == Some(JObj([]))
    ensures Attempt(status, text, decode) == Printed(decode(Unwrap(text).value).value)
  {
  }

  // ---------------------------------------------------------------------
  // load_configs

  /** `data if isinstance(data, list) else [data]`. */
  function LoadConfigs(data: Json): seq<Json> {
    if data.JArr? then data.items else [data]
  }

  /** A file holding one configuration gives a list of that one; a list is
      taken as it is, so only an empty list gives no configuration. */
  lemma LoadConfigsShape(data: Json)
    ensures data.JArr? ==> LoadConfigs(data) == data.items
    ensures !data.JArr? ==> LoadConfigs(data) == [data]
    ensures LoadConfigs(data) == [] <==> data == JArr([])
    ensures forall c :: c in LoadConfigs(data) ==> c == data || (data.JArr? && c in data.items)
  {
  }

  /** Loading what was loaded, as a list, changes nothing. */
  lemma LoadConfigsIdempotent(data: Json)
    ensures LoadConfigs(JArr(LoadConfigs(data))) == LoadConfigs(data)
  {
  }
}
