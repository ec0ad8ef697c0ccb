/**
 * `SelfserviceAction`: reading a Self Service response (`_get_result`, the API-level
 * check of `_login`) and building the command line of the HTTP client (`curl`).
 */
module Selfservice {
  import opened Common

  /** The API level this client speaks. */
  const ApiLevel: int := 5

  /** `_get_result`: the `result` entry of a response whose `status` is 200, Abort otherwise. */
  function GetResult(response: map<string, Json>): (r: Outcome<Json>)
    ensures r.Ok? <==> "status" in response && response["status"] == JInt(200) && "result" in response
    ensures r.Ok? ==> r.value == response["result"]
  {
    if "status" !in response || response["status"] != JInt(200) then
      Abort("Unrecoverable result")
    else if "result" !in response then
      Abort("Unrecoverable result")
    else
      Ok(response["result"])
  }

  /** The check `_login` makes on the answer to the `api` command. */
  function CheckApiLevel(response: map<string, Json>): (r: Outcome<()>)
    ensures r.Ok? <==> GetResult(response) == Ok(JInt(ApiLevel))
  {
    match GetResult(response)
    case Abort(msg) => Abort(msg)
    case Ok(level) =>
      if level != JInt(ApiLevel) then Abort("The Self Service has been updated") else Ok(())
  }

  /** A keyword argument's value: a single value, or a tuple or list of them. */
  datatype Arg = Scalar(text: string) | Items(texts: seq<string>)

  /** Keyword arguments in the order the call site gives them; `None` values are `None`. */
  type Kwargs = seq<(string, Option<Arg>)>

  /** `'%s' % x` for an optional string. */
  function Show(o: Option<string>): string {
    match o
    case None => "None"
    case Some(s) => s
  }

  /** The request URI: `https://` is put in front of a server that does not start with `http`. */
  function Uri(server: string, path: string): (uri: string)
    ensures StartsWith(uri, "http")
    ensures EndsWith(uri, server + "/univention/" + path)
    ensures StartsWith(server, "http") <==> |uri| == |server + "/univention/" + path|
    ensures uri == (if StartsWith(server, "http") then server else "https://" + server) + "/univention/" + path
  {
    var base := if StartsWith(server, "http") then server else "https://" + server;
    assert base + "/univention/" + path == base + ("/univention/" + path);
    base + "/univention/" + path
  }

  function Values(a: Arg): seq<string> {
    match a
    case Scalar(t) => [t]
    case Items(ts) => ts
  }

  /** `-d` (form data) for commands, `-F` (multipart form) for uploads. */
  function Flag(command: bool): string {
    if command then "-d" else "-F"
  }

  /** One field per value, all under the same key. */
  function Expand(key: string, values: seq<string>): (r: seq<(string, string)>)
    ensures |r| == |values|
    ensures forall i :: 0 <= i < |values| ==> r[i] == (key, values[i])
  {
    seq(|values|, i requires 0 <= i < |values| => (key, values[i]))
  }

  /** The `(key, value)` fields a request sends, in order: `None` skipped, lists expanded. */
  function Fields(kwargs: Kwargs): seq<(string, string)> {
    if kwargs == [] then []
    else
      var n := |kwargs| - 1;
      Fields(kwargs[..n]) + LastFields(kwargs[n])
  }

  function LastFields(kw: (string, Option<Arg>)): seq<(string, string)> {
    if kw.1.Some? then Expand(kw.0, Values(kw.1.value)) else []
  }

  /** The keyword argument `kw` is not `None` and has `val` among its values under `key`. */
  predicate Supplies(kw: (string, Option<Arg>), key: string, val: string) {
    kw.0 == key && kw.1.Some? && val in Values(kw.1.value)
  }

  /** The fields are exactly the values of the keyword arguments that are not `None`, under their keys. */
  lemma {:induction false} FieldsMembership(kwargs: Kwargs, key: string, val: string)
    ensures (key, val) in Fields(kwargs) <==> exists i :: 0 <= i < |kwargs| && Supplies(kwargs[i], key, val)
  {
    if kwargs != [] {
      var n := |kwargs| - 1;
      var init := kwargs[..n];
      assert Fields(kwargs) == Fields(init) + LastFields(kwargs[n]);
      FieldsMembership(init, key, val);
      LastFieldsMembership(kwargs[n], key, val);
      if i :| 0 <= i < |init| && Supplies(init[i], key, val) {
        assert kwargs[i] == init[i];
      }
      if i :| 0 <= i < |kwargs| && Supplies(kwargs[i], key, val) {
        if i < n {
          assert init[i] == kwargs[i];
        }
      }
    }
  }

  lemma LastFieldsMembership(kw: (string, Option<Arg>), key: string, val: string)
    ensures (key, val) in LastFields(kw) <==> Supplies(kw, key, val)
  {
    if kw.1.Some? {
      var vals := Values(kw.1.value);
      var r := Expand(kw.0, vals);
      if (key, val) in r {
        var j :| 0 <= j < |r| && r[j] == (key, val);
        assert val == vals[j];
      }
      if Supplies(kw, key, val) {
        var j :| 0 <= j < |vals| && vals[j] == val;
        assert r[j] == (key, val);
      }
    }
  }

  /** The client arguments for the fields: the flag, then `key=val`, for each field in order. */
  function FieldArgs(fields: seq<(string, string)>, flag: string): (args: seq<string>)
    ensures |args| == 2 * |fields|
  {
    if fields == [] then []
    else
      var n := |fields| - 1;
      FieldArgs(fields[..n], flag) + [flag, fields[n].0 + "=" + fields[n].1]
  }

  /** Each field gives exactly the flag and `key=val`, at positions that follow the order of the fields. */
  lemma {:induction false} FieldArgsShape(fields: seq<(string, string)>, flag: string)
    ensures forall i :: 0 <= i < |fields| ==>
      FieldArgs(fields, flag)[2 * i] == flag && FieldArgs(fields, flag)[2 * i + 1] == fields[i].0 + "=" + fields[i].1
  {
    if fields != [] {
      FieldArgsShape(fields[..|fields| - 1], flag);
    }
  }

  lemma {:induction false} FieldArgsFirst(fields: seq<(string, string)>, flag: string)
    requires fields != []
    ensures FieldArgs(fields, flag)[0] == flag
  {
    var n := |fields| - 1;
    if n > 0 {
      FieldArgsFirst(fields[..n], flag);
    }
  }

  /** The fallback for a request without fields: an explicit empty POST. */
  const EmptyPost: seq<string> := ["-X", "POST", "-H", "Content-Length: 0"]

  /** The request-specific arguments: the fields, or an empty POST when there are none. */
  function RequestArgs(kwargs: Kwargs, command: bool): (r: seq<string>)
    ensures r != []
    ensures r == EmptyPost <==> Fields(kwargs) == []
    ensures Fields(kwargs) != [] ==> r == FieldArgs(Fields(kwargs), Flag(command))
  {
    var args := FieldArgs(Fields(kwargs), Flag(command));
    assert args != [] ==> args[0] != EmptyPost[0] by {
      if args != [] {
        FieldArgsFirst(Fields(kwargs), Flag(command));
        assert Flag(command)[1] != EmptyPost[0][1];
      }
    }
    if args == [] then EmptyPost else args
  }

  /** The full command line handed to the HTTP client: fixed options, request arguments, URI. */
  function CurlArgv(username: Option<string>, password: Option<string>, server: string, path: string,
                    command: bool, kwargs: Kwargs): (argv: seq<string>)
    ensures |argv| >= 10
    ensures argv[..4] == ["curl", "--basic", "--user", Show(username) + ":" + Show(password)]
    ensures argv[|argv| - 1] == Uri(server, path)
    ensures argv[8..|argv| - 1] == RequestArgs(kwargs, command)
  {
    ["curl", "--basic", "--user", Show(username) + ":" + Show(password),
     "-H", "X-Requested-With: XmlHttpRequest", "-H", "Accept: application/json; q=1"]
    + RequestArgs(kwargs, command) + [Uri(server, path)]
  }

  /**
   * `curl`'s construction of the client command line, appending to the argument list in
   * a loop over the keyword arguments.
   */
  method Curl(username: Option<string>, password: Option<string>, server: string, path: string,
              command: bool, kwargs: Kwargs) returns (argv: seq<string>)
    ensures argv == CurlArgv(username, password, server, path, command, kwargs)
  {
    var base := server;
    if !StartsWith(base, "http") {
      base := "https://" + base;
    }
    var uri := base + "/univention/" + path;
    var args: seq<string> := [];
    var i := 0;
    while i < |kwargs|
      invariant 0 <= i <= |kwargs|
      invariant args == FieldArgs(Fields(kwargs[..i]), Flag(command))
    {
      var key, value := kwargs[i].0, kwargs[i].1;
      ghost var before := args;
      if value.Some? {
        args := AppendValues(args, key, Values(value.value), command);
      }
      i := i + 1;
      CurlStep(kwargs, i, Flag(command), before, args);
    }
    assert kwargs[..i] == kwargs;
    if args == [] {
      args := args + ["-X", "POST"];
      args := args + ["-H", "Content-Length: 0"];
    }
    assert args == RequestArgs(kwargs, command);
    assert uri == Uri(server, path);
    argv := ["curl", "--basic", "--user", Show(username) + ":" + Show(password),
             "-H", "X-Requested-With: XmlHttpRequest", "-H", "Accept: application/json; q=1"]
            + args + [uri];
  }

  /** One more keyword argument: the arguments for its fields at the end. */
  lemma CurlStep(kwargs: Kwargs, j: nat, flag: string, before: seq<string>, after: seq<string>)
    requires 0 < j <= |kwargs|
    requires before == FieldArgs(Fields(kwargs[..j - 1]), flag)
    requires kwargs[j - 1].1.Some? ==> after == before + FieldArgs(Expand(kwargs[j - 1].0, Values(kwargs[j - 1].1.value)), flag)
    requires kwargs[j - 1].1.None? ==> after == before
    ensures after == FieldArgs(Fields(kwargs[..j]), flag)
  {
    var i := j - 1;
    FieldsSnoc(kwargs, i);
    FieldArgsAppend(Fields(kwargs[..i]), LastFields(kwargs[i]), flag);
    if kwargs[i].1.None? {
      assert FieldArgs(LastFields(kwargs[i]), flag) == [];
    }
  }

  /** The inner loop of `curl`: the flag and `key=val` appended for each value of one keyword argument. */
  method AppendValues(args: seq<string>, key: string, vals: seq<string>, command: bool)
    returns (out: seq<string>)
    ensures out == args + FieldArgs(Expand(key, vals), Flag(command))
  {
    out := args;
    var j := 0;
    while j < |vals|
      invariant 0 <= j <= |vals|
      invariant out == args + FieldArgs(Expand(key, vals[..j]), Flag(command))
    {
      ghost var before := out;
      if command {
        out := out + ["-d"];
      } else {
        out := out + ["-F"];
      }
      assert out == before + [Flag(command)];
      out := out + [key + "=" + vals[j]];
      AppendStep(args, key, vals, j, Flag(command));
      j := j + 1;
    }
    assert vals[..j] == vals;
  }

  /** The arguments for two runs of fields are those of each, one after the other. */
  lemma {:induction false} FieldArgsAppend(a: seq<(string, string)>, b: seq<(string, string)>, flag: string)
    ensures FieldArgs(a + b, flag) == FieldArgs(a, flag) + FieldArgs(b, flag)
  {
    if b == [] {
      assert a + b == a;
    } else {
      var n := |b| - 1;
      assert (a + b)[..|a + b| - 1] == a + b[..n];
      assert (a + b)[|a + b| - 1] == b[n];
      FieldArgsAppend(a, b[..n], flag);
    }
  }

  /** One more value of a keyword argument: its flag and `key=val` at the end. */
  lemma AppendStep(args: seq<string>, key: string, vals: seq<string>, j: nat, flag: string)
    requires j < |vals|
    ensures args + FieldArgs(Expand(key, vals[..j]), flag) + [flag] + [key + "=" + vals[j]]
         == args + FieldArgs(Expand(key, vals[..j + 1]), flag)
  {
    ExpandSnoc(key, vals, j);
    FieldArgsSnoc(Expand(key, vals[..j]), (key, vals[j]), flag);
  }

  lemma FieldArgsSnoc(fields: seq<(string, string)>, f: (string, string), flag: string)
    ensures FieldArgs(fields + [f], flag) == FieldArgs(fields, flag) + [flag, f.0 + "=" + f.1]
  {
    assert (fields + [f])[..|fields|] == fields;
  }

  lemma FieldsSnoc(kwargs: Kwargs, i: nat)
    requires i < |kwargs|
    ensures Fields(kwargs[..i + 1]) == Fields(kwargs[..i]) + LastFields(kwargs[i])
  {
    assert kwargs[..i + 1][..i] == kwargs[..i];
  }

  lemma ExpandSnoc(key: string, vals: seq<string>, j: nat)
    requires j < |vals|
    ensures Expand(key, vals[..j + 1]) == Expand(key, vals[..j]) + [(key, vals[j])]
  {
  }
}
