/** The shared HTTP client of the scrapers (`scraper/http.py`): the retry policy of `get` and
    the reading of the cookie string from the environment. The network and the clock are
    parameters: `outcome(i)` is what the `i`-th request of one call brings back, and the
    sleeps are returned as the list of their durations instead of being slept. */
module Http {
  import opened Wrappers
  import opened Strings

  /** What one `session.get` gives: a response with its status code, or a transport failure
      (timeout, refused connection, ...), which `requests` raises. */
  datatype Outcome = Response(status: int) | TransportError

  /** The statuses `raise_for_status` raises for: 4xx client and 5xx server errors. */
  predicate IsHttpError(status: int)
  {
    400 <= status < 600
  }

  /** Whether a request ends in an exception: always on a transport failure, and on an error
      status when the caller asked for `raise_for_status`. */
  predicate Raises(o: Outcome, raiseForStatus: bool)
  {
    o.TransportError? || (raiseForStatus && IsHttpError(o.status))
  }

  /** Guarded tries before the last, unguarded request. */
  const Tries: nat := 3

  /** What `get` hands back: the response, or the exception that escapes it. */
  datatype Reply = Returned(status: int) | Raised(error: Outcome)

  /** One call of `get`: its reply, how many requests it sent and the sleeps between them. */
  datatype Call = Call(reply: Reply, requests: nat, waits: seq<real>)

  /** The reply of a request whose exception is not caught. */
  function Settle(o: Outcome, raiseForStatus: bool): (r: Reply)
    ensures r.Raised? <==> Raises(o, raiseForStatus)
    ensures r.Returned? ==> o == Response(r.status)
  {
    if Raises(o, raiseForStatus) then Raised(o) else Returned(o.status)
  }

  /** The sleep after the failed guarded try `i` (counted from 0): `sleep * (i + 1)`. */
  function Backoff(sleep: real, i: nat): real
  {
    sleep * ((i + 1) as real)
  }

  /** Try `i` onwards: a guarded try returns at once on success and otherwise sleeps and
      moves on; after `Tries` failures the last request's result is final. */
  function Attempts(outcome: nat -> Outcome, raiseForStatus: bool, sleep: real, i: nat): (c: Call)
    requires i <= Tries
    ensures 1 <= c.requests <= Tries + 1 - i
    ensures forall j :: i <= j < i + c.requests - 1 ==> Raises(outcome(j), raiseForStatus)
    ensures c.reply == Settle(outcome(i + c.requests - 1), raiseForStatus)
    ensures i + c.requests - 1 < Tries ==> c.reply.Returned?
    ensures |c.waits| == c.requests - 1
    ensures forall j :: 0 <= j < |c.waits| ==> c.waits[j] == Backoff(sleep, i + j)
    decreases Tries - i
  {
    if i == Tries then Call(Settle(outcome(i), raiseForStatus), 1, [])
    else if !Raises(outcome(i), raiseForStatus) then Call(Returned(outcome(i).status), 1, [])
    else
      var rest := Attempts(outcome, raiseForStatus, sleep, i + 1);
      Call(rest.reply, rest.requests + 1, [Backoff(sleep, i)] + rest.waits)
  }

  /** `HttpClient.get`: at most four requests; every request but the last raised; the reply
      is the last request's, and it can only be an exception when all four were sent; the
      sleeps grow linearly, one after each failed guarded try. */
  function GetCall(outcome: nat -> Outcome, raiseForStatus: bool, sleep: real): (c: Call)
    ensures 1 <= c.requests <= Tries + 1
    ensures forall j :: 0 <= j < c.requests - 1 ==> Raises(outcome(j), raiseForStatus)
    ensures c.reply == Settle(outcome(c.requests - 1), raiseForStatus)
    ensures c.reply.Raised? ==> c.requests == Tries + 1
    ensures |c.waits| == c.requests - 1
    ensures forall j :: 0 <= j < |c.waits| ==> c.waits[j] == Backoff(sleep, j)
  {
    Attempts(outcome, raiseForStatus, sleep, 0)
  }

  /** The same policy as the loop of the source: `for i in range(3)` and then one more request. */
  method Get(outcome: nat -> Outcome, raiseForStatus: bool, sleep: real) returns (c: Call)
    ensures 1 <= c.requests <= Tries + 1
    ensures forall j :: 0 <= j < c.requests - 1 ==> Raises(outcome(j), raiseForStatus)
    ensures c.reply == Settle(outcome(c.requests - 1), raiseForStatus)
    ensures c.reply.Raised? ==> c.requests == Tries + 1
    ensures |c.waits| == c.requests - 1
    ensures forall j :: 0 <= j < |c.waits| ==> c.waits[j] == Backoff(sleep, j)
  {
    var waits: seq<real> := [];
    var i: nat := 0;
    while i < Tries
      invariant i <= Tries
      invariant forall j :: 0 <= j < i ==> Raises(outcome(j), raiseForStatus)
      invariant |waits| == i
      invariant forall j :: 0 <= j < i ==> waits[j] == Backoff(sleep, j)
    {
      var o := outcome(i);
      if !Raises(o, raiseForStatus) {
        return Call(Returned(o.status), i + 1, waits);
      }
      waits := waits + [Backoff(sleep, i)];
      i := i + 1;
    }
    c := Call(Settle(outcome(Tries), raiseForStatus), Tries + 1, waits);
  }

  /** Request `k` is the first that does not raise, or all guarded tries failed and `k` is the
      unguarded last one. */
  predicate SettlesAt(outcome: nat -> Outcome, raiseForStatus: bool, k: nat)
  {
    k <= Tries
    && (forall j :: 0 <= j < k ==> Raises(outcome(j), raiseForStatus))
    && (k < Tries ==> !Raises(outcome(k), raiseForStatus))
  }

  /** The first request that does not raise decides the call: nothing after it is sent. */
  lemma FirstSuccessDecides(outcome: nat -> Outcome, raiseForStatus: bool, sleep: real, k: nat)
    requires SettlesAt(outcome, raiseForStatus, k)
    ensures GetCall(outcome, raiseForStatus, sleep).requests == k + 1
    ensures GetCall(outcome, raiseForStatus, sleep).reply == Settle(outcome(k), raiseForStatus)
  {
  }

  /** Without `raise_for_status` an error status is returned like any other: only transport
      failures are retried. */
  lemma StatusWithoutCheckIsReturned(outcome: nat -> Outcome, sleep: real, status: int)
    requires outcome(0) == Response(status)
    ensures GetCall(outcome, false, sleep) == Call(Returned(status), 1, [])
  {
    assert !Raises(outcome(0), false);
    FirstSuccessDecides(outcome, false, sleep, 0);
  }

  /** When every request raises, four are sent, the fourth's exception escapes, and the call
      slept `sleep`, `2 * sleep` and `3 * sleep`. */
  lemma AllFailing(outcome: nat -> Outcome, raiseForStatus: bool, sleep: real)
    requires forall j :: 0 <= j <= Tries ==> Raises(outcome(j), raiseForStatus)
    ensures GetCall(outcome, raiseForStatus, sleep).requests == 4
    ensures GetCall(outcome, raiseForStatus, sleep).reply == Raised(outcome(3))
    ensures GetCall(outcome, raiseForStatus, sleep).waits == [sleep, 2.0 * sleep, 3.0 * sleep]
  {
    var c := GetCall(outcome, raiseForStatus, sleep);
    FirstSuccessDecides(outcome, raiseForStatus, sleep, Tries);
    assert c.waits[0] == Backoff(sleep, 0);
    assert c.waits[1] == Backoff(sleep, 1);
    assert c.waits[2] == Backoff(sleep, 2);
  }

  // ---------------------------------------------------------------------------------------
  // Cookies from the environment
  // ---------------------------------------------------------------------------------------

  /** One `;`-separated part of the cookie string: a part with `=` is stripped and split at
      its first `=` into name and value (the value may hold more `=`); other parts are
      skipped. */
  function CookieOf(part: string): (r: Option<(string, string)>)
    ensures r.Some? <==> '=' in part
    ensures r.Some? ==> '=' !in r.value.0 && r.value.0 + "=" + r.value.1 == Strip(part)
  {
    if '=' in part then
      StripKeepsInner(part, '=');
      Some(SplitFirst(Strip(part), '='))
    else None
  }

  /** `read(part)` sets cookie `name`. */
  predicate NamesPart(read: string -> Option<(string, string)>, part: string, name: string)
  {
    read(part).Some? && read(part).value.0 == name
  }

  /** `jar.set` for one part, or nothing for a part that reads as no cookie. */
  function SetPart(read: string -> Option<(string, string)>, jar: map<string, string>, part: string): map<string, string>
  {
    match read(part)
    case Some(kv) => jar[kv.0 := kv.1]
    case None => jar
  }

  /** What one part does to one name. */
  lemma SetPartAt(read: string -> Option<(string, string)>, jar: map<string, string>, part: string, name: string)
    ensures name in SetPart(read, jar, part) <==> name in jar || NamesPart(read, part, name)
    ensures NamesPart(read, part, name) ==> SetPart(read, jar, part)[name] == read(part).value.1
    ensures !NamesPart(read, part, name) && name in jar ==> SetPart(read, jar, part)[name] == jar[name]
  {
  }

  /** The jar after setting the parts one after another, each read by `read`: a later part
      overwrites an earlier one with the same name. */
  function JarOf(read: string -> Option<(string, string)>, parts: seq<string>): map<string, string>
  {
    if parts == [] then map[] else SetPart(read, JarOf(read, parts[..|parts| - 1]), parts[|parts| - 1])
  }

  /** The cookies the session starts with: none when the variable is unset or empty,
      otherwise the jar of its `;`-separated parts. */
  function Cookies(env: Option<string>): (jar: map<string, string>)
    ensures env.None? || env == Some([]) ==> jar == map[]
  {
    match env
    case None => map[]
    case Some(s) => if s == [] then map[] else JarOf(CookieOf, Split(s, ';'))
  }

  /** Part `i` sets cookie `name`. */
  predicate Names(read: string -> Option<(string, string)>, parts: seq<string>, i: int, name: string)
    requires 0 <= i < |parts|
  {
    NamesPart(read, parts[i], name)
  }

  /** Part `i` is the last that sets cookie `name`. */
  predicate LastNaming(read: string -> Option<(string, string)>, parts: seq<string>, i: int, name: string)
  {
    0 <= i < |parts| && Names(read, parts, i, name)
    && forall j :: i < j < |parts| ==> !Names(read, parts, j, name)
  }

  /** Some part sets cookie `name`. */
  predicate SomeNames(read: string -> Option<(string, string)>, parts: seq<string>, name: string)
  {
    exists i :: 0 <= i < |parts| && Names(read, parts, i, name)
  }

  /** A name is in the jar exactly when some part sets it. */
  lemma {:induction false} JarHasNamed(read: string -> Option<(string, string)>, parts: seq<string>, name: string)
    ensures name in JarOf(read, parts) <==> SomeNames(read, parts, name)
    decreases |parts|
  {
    if parts != [] {
      var n := |parts| - 1;
      var init := parts[..n];
      var jar := JarOf(read, init);
      JarHasNamed(read, init, name);
      assert JarOf(read, parts) == SetPart(read, jar, parts[n]);
      SetPartAt(read, jar, parts[n], name);
      if SomeNames(read, init, name) {
        var i :| 0 <= i < |init| && Names(read, init, i, name);
        assert init[i] == parts[i];
        assert Names(read, parts, i, name);
      }
      if Names(read, parts, n, name) {
        assert NamesPart(read, parts[n], name);
      }
      if SomeNames(read, parts, name) && !Names(read, parts, n, name) {
        var i :| 0 <= i < |parts| && Names(read, parts, i, name);
        assert init[i] == parts[i];
        assert Names(read, init, i, name);
      }
    }
  }

  /** The value in the jar is the one of the last part that sets the name. */
  lemma {:induction false} LastPartWins(read: string -> Option<(string, string)>, parts: seq<string>, name: string, i: int)
    requires LastNaming(read, parts, i, name)
    ensures name in JarOf(read, parts) && JarOf(read, parts)[name] == read(parts[i]).value.1
    decreases |parts|
  {
    var n := |parts| - 1;
    var init := parts[..n];
    var jar := JarOf(read, init);
    assert JarOf(read, parts) == SetPart(read, jar, parts[n]);
    SetPartAt(read, jar, parts[n], name);
    if i < n {
      assert !Names(read, parts, n, name);
      assert init[i] == parts[i];
      assert LastNaming(read, init, i, name) by {
        forall j | i < j < |init|
          ensures !Names(read, init, j, name)
        {
          assert init[j] == parts[j];
          assert !Names(read, parts, j, name);
        }
      }
      LastPartWins(read, init, name, i);
    }
  }

  /** A cookie as a user writes it: a non-empty name that starts with a non-blank and holds
      no `=` or `;`, and a value with no `;` that does not end in a blank. */
  predicate WellFormed(kv: (string, string))
  {
    kv.0 != [] && !IsSpace(kv.0[0]) && '=' !in kv.0 && ';' !in kv.0
    && ';' !in kv.1 && (kv.1 == [] || !IsSpace(kv.1[|kv.1| - 1]))
  }

  function Render(kv: (string, string)): string
  {
    kv.0 + "=" + kv.1
  }

  /** The map a sequence of `jar.set` calls builds. */
  function SetAll(cookies: seq<(string, string)>): map<string, string>
  {
    if cookies == [] then map[]
    else SetAll(cookies[..|cookies| - 1])[cookies[|cookies| - 1].0 := cookies[|cookies| - 1].1]
  }

  /** A well-formed cookie reads back as itself. */
  lemma CookieOfRender(kv: (string, string))
    requires WellFormed(kv)
    ensures CookieOf(Render(kv)) == Some(kv)
  {
    var t := Render(kv);
    assert t[|kv.0|] == '=';
    assert IsStripped(t);
    var r := SplitFirst(t, '=');
    SplitFirstUnique(r.0, r.1, kv.0, kv.1, '=');
  }

  /** The parts of `RenderAll`. */
  function RenderedParts(cookies: seq<(string, string)>): (r: seq<string>)
    ensures |r| == |cookies|
    ensures forall i :: 0 <= i < |r| ==> r[i] == Render(cookies[i])
  {
    seq(|cookies|, i requires 0 <= i < |cookies| => Render(cookies[i]))
  }

  /** `name=value;name=value...`, the format of the variable. */
  function RenderAll(cookies: seq<(string, string)>): string
  {
    Join(";", RenderedParts(cookies))
  }

  /** Reading the parts of a rendered list sets the cookies in order. */
  lemma {:induction false} JarOfRendered(cookies: seq<(string, string)>)
    requires forall i :: 0 <= i < |cookies| ==> WellFormed(cookies[i])
    ensures JarOf(CookieOf, RenderedParts(cookies)) == SetAll(cookies)
    decreases |cookies|
  {
    if cookies != [] {
      var n := |cookies| - 1;
      var parts := RenderedParts(cookies);
      var init := cookies[..n];
      JarOfRendered(init);
      assert parts[..n] == RenderedParts(init);
      CookieOfRender(cookies[n]);
      assert JarOf(CookieOf, parts) == SetPart(CookieOf, JarOf(CookieOf, RenderedParts(init)), parts[n]);
    }
  }

  /** The variable written from well-formed cookies gives them back, a later duplicate
      overriding an earlier one. */
  lemma CookiesRoundTrip(cookies: seq<(string, string)>)
    requires forall i :: 0 <= i < |cookies| ==> WellFormed(cookies[i])
    ensures Cookies(Some(RenderAll(cookies))) == SetAll(cookies)
  {
    JarOfRendered(cookies);
    if cookies != [] {
      RenderedSplits(cookies);
    }
  }

  /** The rendered variable splits back into its parts, and is not empty. */
  lemma RenderedSplits(cookies: seq<(string, string)>)
    requires cookies != []
    requires forall i :: 0 <= i < |cookies| ==> WellFormed(cookies[i])
    ensures RenderAll(cookies) != []
    ensures Split(RenderAll(cookies), ';') == RenderedParts(cookies)
  {
    var parts := RenderedParts(cookies);
    forall i | 0 <= i < |parts|
      ensures ';' !in parts[i]
    {
      assert WellFormed(cookies[i]);
    }
    SplitJoin(parts, ';');
    JoinNonEmpty(parts);
  }

  /** Joining parts whose first one is not empty never gives the empty text. */
  lemma JoinNonEmpty(parts: seq<string>)
    requires parts != [] && parts[0] != []
    ensures Join(";", parts) != []
  {
  }
}
