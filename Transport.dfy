/** The transport and response interpreter of main in gister.go: the path
    the request is posted to, and what is made of the decoded response.
    Sending the request and decoding JSON are not modelled; the decoded
    response is given, in the well-shaped case. */
module Transport {
  import opened Wrappers
  import Text

  /** The API root the path is resolved against. */
  const ApiBase := "https://api.github.com/"

  /** The path posted to: "gists" to create, "gists/<id>" to update gist <id>. */
  function EndpointPath(update: string): string
  {
    if update != "" then "gists" + "/" + update else "gists"
  }

  /** The update id a path was built from ("" for creation). */
  function UpdateTarget(path: string): string
  {
    if |path| > |"gists/"| then path[|"gists/"|..] else ""
  }

  /** The path determines the id it was built from, so create and update of
      different gists never share a path; the path is "gists" exactly when
      nothing is updated. */
  lemma EndpointPathRoundTrip(update: string)
    ensures UpdateTarget(EndpointPath(update)) == update
    ensures EndpointPath(update) == "gists" <==> update == ""
    ensures EndpointPath(update)[..5] == "gists"
  {
    if update != "" {
      assert |EndpointPath(update)| > 6;
    }
  }

  /** The decoded response body: `html_url` and `message` when present, and
      `errors` as a list of field -> detail maps when present. */
  datatype Response = Response(htmlUrl: Option<string>, message: Option<string>, errors: Option<seq<map<string, string>>>)

  /** One line logged for an API failure: the position of the map in
      `errors`, a key of it and that key's value. */
  datatype Diagnostic = Diagnostic(index: nat, field: string, detail: string)

  /** What main makes of the response: success (html_url present); a
      failure report (the error lines, then the message); or, when the
      message is missing, the error lines followed by a panic of the type
      assertion on `message`. */
  datatype Report = Posted | Rejected(diagnostics: seq<Diagnostic>, message: string) | Crashed(diagnostics: seq<Diagnostic>)

  /** `keys` names every key of `m` exactly once: an order in which Go's
      `range` may visit `m` (it promises no particular one). */
  predicate Enumerates(keys: seq<string>, m: map<string, string>)
  {
    (forall a, b :: 0 <= a < b < |keys| ==> keys[a] != keys[b])
    && (forall k :: k in m ==> k in keys) && (forall k :: k in keys ==> k in m)
  }

  /** `visit[i]` is the order in which the maps `errs[i]` are visited. */
  predicate VisitOrder(visit: seq<seq<string>>, errs: seq<map<string, string>>)
  {
    |visit| == |errs| && forall i :: 0 <= i < |errs| ==> Enumerates(visit[i], errs[i])
  }

  /** The lines for the first `j` keys the inner loop visits in map `m`,
      which is `errors[i]`. */
  function EntryDiagnostics(i: nat, m: map<string, string>, keys: seq<string>, j: nat): seq<Diagnostic>
    requires j <= |keys| && forall k :: k in keys ==> k in m
  {
    if j == 0 then [] else EntryDiagnostics(i, m, keys, j - 1) + [Diagnostic(i, keys[j - 1], m[keys[j - 1]])]
  }

  /** The lines for the first `n` maps of `errs`, in the order the nested
      loops log them. */
  function Diagnostics(errs: seq<map<string, string>>, visit: seq<seq<string>>, n: nat): seq<Diagnostic>
    requires n <= |errs| && VisitOrder(visit, errs)
  {
    if n == 0 then []
    else Diagnostics(errs, visit, n - 1) + EntryDiagnostics(n - 1, errs[n - 1], visit[n - 1], |visit[n - 1]|)
  }

  /** The lines for one map are its visited keys, in visiting order. */
  lemma {:induction false} EntryDiagnosticsAt(i: nat, m: map<string, string>, keys: seq<string>, j: nat)
    requires j <= |keys| && forall k :: k in keys ==> k in m
    ensures |EntryDiagnostics(i, m, keys, j)| == j
    ensures forall t :: 0 <= t < j ==> EntryDiagnostics(i, m, keys, j)[t] == Diagnostic(i, keys[t], m[keys[t]])
  {
    if j > 0 {
      EntryDiagnosticsAt(i, m, keys, j - 1);
    }
  }

  /** `d` names a key of the map at its index, below `n`, and that key's value. */
  predicate Logged(errs: seq<map<string, string>>, n: nat, d: Diagnostic)
    requires n <= |errs|
  {
    d.index < n && d.field in errs[d.index] && d.detail == errs[d.index][d.field]
  }

  /** The lines for one map are exactly its (key, value) pairs. */
  lemma EntryDiagnosticsMembers(i: nat, m: map<string, string>, keys: seq<string>)
    requires Enumerates(keys, m)
    ensures forall d :: d in EntryDiagnostics(i, m, keys, |keys|) <==>
      d.index == i && d.field in m && d.detail == m[d.field]
  {
    EntryDiagnosticsAt(i, m, keys, |keys|);
    var e := EntryDiagnostics(i, m, keys, |keys|);
    forall d: Diagnostic | d.index == i && d.field in m && d.detail == m[d.field] ensures d in e {
      var t :| 0 <= t < |keys| && keys[t] == d.field;
      assert e[t] == d;
    }
  }

  /** Exactly one line per (index, key, value) of `errs`: a line is logged
      if and only if it names a key of the map at its index together with
      that key's value. */
  lemma {:induction false} DiagnosticsComplete(errs: seq<map<string, string>>, visit: seq<seq<string>>, n: nat)
    requires n <= |errs| && VisitOrder(visit, errs)
    ensures forall d :: d in Diagnostics(errs, visit, n) <==> Logged(errs, n, d)
  {
    if n > 0 {
      DiagnosticsComplete(errs, visit, n - 1);
      var keys := visit[n - 1];
      assert Enumerates(keys, errs[n - 1]);
      EntryDiagnosticsMembers(n - 1, errs[n - 1], keys);
      var p := Diagnostics(errs, visit, n - 1);
      var e := EntryDiagnostics(n - 1, errs[n - 1], keys, |keys|);
      assert Diagnostics(errs, visit, n) == p + e;
      forall d: Diagnostic ensures d in p + e <==> Logged(errs, n, d) {
        assert d in p <==> Logged(errs, n - 1, d);
      }
    }
  }

  /** Each later line is for a later map, or for another key of the same map. */
  predicate MapByMap(ds: seq<Diagnostic>)
  {
    forall a, b :: 0 <= a < b < |ds| ==>
      ds[a].index < ds[b].index || (ds[a].index == ds[b].index && ds[a].field != ds[b].field)
  }

  /** Lines for map `i`, each for another key, may follow lines for earlier maps. */
  lemma MapByMapAppend(p: seq<Diagnostic>, e: seq<Diagnostic>, i: nat)
    requires MapByMap(p) && forall d :: d in p ==> d.index < i
    requires forall t :: 0 <= t < |e| ==> e[t].index == i
    requires forall a, b :: 0 <= a < b < |e| ==> e[a].field != e[b].field
    ensures MapByMap(p + e)
  {
    var ds := p + e;
    forall a, b | 0 <= a < b < |ds|
      ensures ds[a].index < ds[b].index || (ds[a].index == ds[b].index && ds[a].field != ds[b].field)
    {
      if b < |p| {
        assert ds[a] == p[a] && ds[b] == p[b];
      } else if a < |p| {
        assert ds[a] == p[a] && p[a] in p;
        assert ds[b] == e[b - |p|];
      } else {
        assert ds[a] == e[a - |p|] && ds[b] == e[b - |p|];
      }
    }
  }

  /** The lines come out map by map, and within a map no key twice: no line
      is logged twice. */
  lemma {:induction false} DiagnosticsOrdered(errs: seq<map<string, string>>, visit: seq<seq<string>>, n: nat)
    requires n <= |errs| && VisitOrder(visit, errs)
    ensures MapByMap(Diagnostics(errs, visit, n))
  {
    if n > 0 {
      DiagnosticsOrdered(errs, visit, n - 1);
      var keys := visit[n - 1];
      assert Enumerates(keys, errs[n - 1]);
      EntryDiagnosticsAt(n - 1, errs[n - 1], keys, |keys|);
      var p := Diagnostics(errs, visit, n - 1);
      var e := EntryDiagnostics(n - 1, errs[n - 1], keys, |keys|);
      assert forall d :: d in p ==> d.index < n - 1 by {
        DiagnosticsComplete(errs, visit, n - 1);
      }
      assert Diagnostics(errs, visit, n) == p + e;
      MapByMapAppend(p, e, n - 1);
    }
  }

  /** The nested loops of main over `errors`: for each map, in order, one
      line per key in visiting order. */
  method EmitDiagnostics(errs: seq<map<string, string>>, visit: seq<seq<string>>) returns (lines: seq<Diagnostic>)
    requires VisitOrder(visit, errs)
    ensures lines == Diagnostics(errs, visit, |errs|)
  {
    lines := [];
    var i := 0;
    while i < |errs|
      invariant 0 <= i <= |errs|
      invariant lines == Diagnostics(errs, visit, i)
    {
      var m := errs[i];
      var keys := visit[i];
      assert Enumerates(keys, m);
      var j := 0;
      while j < |keys|
        invariant 0 <= j <= |keys|
        invariant lines == Diagnostics(errs, visit, i) + EntryDiagnostics(i, m, keys, j)
      {
        var k := keys[j];
        lines := lines + [Diagnostic(i, k, m[k])];
        j := j + 1;
      }
      i := i + 1;
    }
  }

  /** The decision main takes on the response: success exactly when it has
      `html_url`; otherwise the error lines (none when `errors` is absent)
      and then the message, or a panic when there is no message. */
  function Classify(response: Response, visit: seq<seq<string>>): (r: Report)
    requires response.errors.Some? ==> VisitOrder(visit, response.errors.value)
    ensures r.Posted? <==> response.htmlUrl.Some?
    ensures r.Rejected? <==> response.htmlUrl.None? && response.message.Some?
    ensures r.Rejected? ==> r.message == response.message.value
    ensures !r.Posted? ==> (r.diagnostics ==
      if response.errors.Some? then Diagnostics(response.errors.value, visit, |response.errors.value|) else [])
  {
    if response.htmlUrl.Some? then Posted
    else
      var lines := if response.errors.Some?
        then Diagnostics(response.errors.value, visit, |response.errors.value|) else [];
      if response.message.Some? then Rejected(lines, response.message.value) else Crashed(lines)
  }

  /** A diagnostic as fmt.Sprintf("%d %s: %s\n", ...) writes it. */
  function Render(d: Diagnostic): string
  {
    Text.Decimal(d.index) + " " + d.field + ": " + d.detail + "\n"
  }

  /** The index can be read back from a rendered line: it is the numeral
      before the line's first space. */
  lemma RenderIndex(d: Diagnostic)
    ensures var s := Render(d); var i := Text.Index(s, " ");
      0 <= i && forall k :: 0 <= k < i ==> Text.IsDigit(s[k])
    ensures var s := Render(d); var i := Text.Index(s, " ");
      0 <= i && Text.DecimalValue(s[..i]) == d.index
  {
    var num := Text.Decimal(d.index);
    var rest := d.field + ": " + d.detail + "\n";
    assert Render(d) == num + " " + rest;
    Text.IndexAfterFreePrefix(num, " ", rest);
    assert (num + " " + rest)[..|num|] == num;
    Text.DecimalRoundTrip(d.index);
  }

  /** The examples {"html_url": "https://gist.example/abc"} (success) and
      {"message": "Bad credentials"} (failure carrying the message). */
  lemma ResponseExamples(visit: seq<seq<string>>)
    ensures Classify(Response(Some("https://gist.example/abc"), None, None), visit) == Posted
    ensures Classify(Response(None, Some("Bad credentials"), None), visit) == Rejected([], "Bad credentials")
  {
  }
}
