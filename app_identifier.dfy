/**
 * The compact app identifier `[UCS_VERSION[@SERVER]/]APP_ID[=APP_VERSION]` that every
 * app-related subcommand takes, and its parser `StoreAppAction.parse_app_id_string`.
 */
module AppIdentifier {
  import opened Common

  /** The parser's 4-tuple `(app_id, app_version, ucs_version, server)`. */
  datatype AppSpec = AppSpec(
    appId: Option<string>,
    appVersion: Option<string>,
    ucsVersion: Option<string>,
    server: Option<string>)

  /** `x or None` on an optional string: the empty string is falsy. */
  function NoneIfEmpty(o: Option<string>): Option<string> {
    if o == Some("") then None else o
  }

  /** `head, tail = s.split(sep, 1)`, falling back to `head, tail = s, None`. */
  function SplitTail(s: string, sep: char): (r: (string, Option<string>))
    ensures sep !in r.0
    ensures r.1.Some? <==> sep in s
    ensures s == r.0 + (if r.1.Some? then [sep] + r.1.value else [])
  {
    match SplitOnce(s, sep)
    case Some((h, t)) => (h, Some(t))
    case None => (s, None)
  }

  /** `head, tail = s.split(sep, 1)`, falling back to `head, tail = None, s`. */
  function SplitHead(s: string, sep: char): (r: (Option<string>, string))
    ensures r.0.None? <==> sep !in s
    ensures r.0.None? ==> r.1 == s
    ensures r.0.Some? ==> sep !in r.0.value && s == r.0.value + [sep] + r.1
  {
    match SplitOnce(s, sep)
    case Some((h, t)) => (Some(h), t)
    case None => (None, s)
  }

  /**
   * Splits at the first `=` (version), then the rest at the first `/` (UCS part), then a
   * non-empty UCS part at the first `@` (server); an empty UCS version becomes None.
   */
  function ParseAppIdString(input: Option<string>): (r: AppSpec)
    ensures input.None? ==> r == AppSpec(None, None, None, None)
    ensures input.Some? ==> r.appId.Some? && '=' !in r.appId.value
    ensures r.appVersion.Some? <==> input.Some? && '=' in input.value
    ensures r.ucsVersion != Some("")
    ensures r.ucsVersion.Some? ==> '/' !in r.ucsVersion.value && '=' !in r.ucsVersion.value
    ensures r.server.Some? ==> '/' !in r.server.value && '=' !in r.server.value
  {
    match input
    case None => AppSpec(None, None, None, None)
    case Some(s) =>
      var (rest, appVersion) := SplitTail(s, '=');
      var (ucsPart, appId) := SplitHead(rest, '/');
      var (ucs, server) := SplitUcsPart(ucsPart);
      UcsPartFree(ucsPart);
      AppSpec(Some(appId), appVersion, ucs, server)
  }

  /** The UCS version and server are pieces of the UCS part, so they lack what it lacks. */
  lemma UcsPartFree(ucsPart: Option<string>)
    requires ucsPart.Some? ==> '/' !in ucsPart.value && '=' !in ucsPart.value
    ensures SplitUcsPart(ucsPart).0.Some? ==> '/' !in SplitUcsPart(ucsPart).0.value && '=' !in SplitUcsPart(ucsPart).0.value
    ensures SplitUcsPart(ucsPart).1.Some? ==> '/' !in SplitUcsPart(ucsPart).1.value && '=' !in SplitUcsPart(ucsPart).1.value
  {
  }

  /** The UCS part split at its first `@` when it is non-empty; an empty UCS version becomes None. */
  function SplitUcsPart(ucsPart: Option<string>): (r: (Option<string>, Option<string>))
    ensures r.0 != Some("")
  {
    if ucsPart.Some? && ucsPart.value != "" then
      var (u, srv) := SplitTail(ucsPart.value, '@');
      (NoneIfEmpty(Some(u)), srv)
    else
      (NoneIfEmpty(ucsPart), None)
  }

  /** Writes an identifier back in the grammar the parser reads. */
  function FormatAppIdString(a: AppSpec): string
    requires a.appId.Some?
  {
    (if a.ucsVersion.Some? then
       a.ucsVersion.value + (if a.server.Some? then "@" + a.server.value else "") + "/"
     else "")
    + a.appId.value
    + (if a.appVersion.Some? then "=" + a.appVersion.value else "")
  }

  /** The identifiers the grammar can express: separators only where they delimit parts. */
  predicate WellFormed(a: AppSpec) {
    && a.appId.Some? && '=' !in a.appId.value
    && (a.ucsVersion.None? ==> '/' !in a.appId.value && a.server.None?)
    && (a.ucsVersion.Some? ==>
          a.ucsVersion.value != "" && '/' !in a.ucsVersion.value
          && '=' !in a.ucsVersion.value && '@' !in a.ucsVersion.value)
    && (a.server.Some? ==> '/' !in a.server.value && '=' !in a.server.value)
  }

  /**
   * The strings on which parsing loses information: the UCS part (text before the first
   * `/` of the text before the first `=`) is empty or starts with `@`.
   */
  predicate LossyUcsPart(s: string) {
    var ucsPart := SplitHead(SplitTail(s, '=').0, '/').0;
    ucsPart.Some? && (ucsPart.value == "" || ucsPart.value[0] == '@')
  }

  /** Formatting then parsing a well-formed identifier gives it back. */
  lemma ParseFormat(a: AppSpec)
    requires WellFormed(a)
    ensures ParseAppIdString(Some(FormatAppIdString(a))) == a
  {
    var appId := a.appId.value;
    var tail := if a.appVersion.Some? then "=" + a.appVersion.value else "";
    var ucsPart: Option<string> :=
      if a.ucsVersion.Some? then
        Some(a.ucsVersion.value + (if a.server.Some? then "@" + a.server.value else ""))
      else None;
    var rest := if ucsPart.Some? then ucsPart.value + "/" + appId else appId;
    var s := FormatAppIdString(a);
    assert s == rest + tail;
    SplitTailJoin(rest, '=', a.appVersion);
    SplitHeadJoin(ucsPart, '/', appId);
    assert ParseAppIdString(Some(s)) == AppSpec(Some(appId), a.appVersion, SplitUcsPart(ucsPart).0, SplitUcsPart(ucsPart).1);
    if a.ucsVersion.Some? {
      SplitTailJoin(a.ucsVersion.value, '@', a.server);
    }
  }

  /** `SplitTail` undoes joining a head free of the separator with an optional tail. */
  lemma SplitTailJoin(head: string, sep: char, tail: Option<string>)
    requires sep !in head
    ensures SplitTail(head + (if tail.Some? then [sep] + tail.value else []), sep) == (head, tail)
  {
    if tail.Some? {
      assert head + ([sep] + tail.value) == head + [sep] + tail.value;
      SplitOnceJoin(head, sep, tail.value);
    } else {
      assert head + [] == head;
    }
  }

  /** `SplitHead` undoes joining an optional head free of the separator with a tail. */
  lemma SplitHeadJoin(head: Option<string>, sep: char, tail: string)
    requires head.Some? ==> sep !in head.value
    requires head.None? ==> sep !in tail
    ensures SplitHead(if head.Some? then head.value + [sep] + tail else tail, sep) == (head, tail)
  {
    if head.Some? {
      SplitOnceJoin(head.value, sep, tail);
    }
  }

  /** Outside the lossy corner, parsing yields a well-formed identifier that formats back to the input. */
  lemma FormatParse(s: string)
    requires !LossyUcsPart(s)
    ensures WellFormed(ParseAppIdString(Some(s)))
    ensures FormatAppIdString(ParseAppIdString(Some(s))) == s
  {
    var r := ParseAppIdString(Some(s));
    var (rest, appVersion) := SplitTail(s, '=');
    var (ucsPart, appId) := SplitHead(rest, '/');
    assert r.appId == Some(appId) && r.appVersion == appVersion;
    var tail := if appVersion.Some? then "=" + appVersion.value else "";
    assert s == rest + tail;
    if ucsPart.Some? {
      var (u, srv) := SplitTail(ucsPart.value, '@');
      assert u != "";
      assert r.ucsVersion == Some(u) && r.server == srv;
      var ucsText := u + (if srv.Some? then "@" + srv.value else "");
      assert ucsPart.value == ucsText;
      assert rest == ucsText + "/" + appId;
      assert FormatAppIdString(r) == ucsText + "/" + appId + tail;
    } else {
      assert r.ucsVersion == None && r.server == None;
      assert FormatAppIdString(r) == appId + tail;
    }
  }

  /**
   * An empty UCS version is dropped by the parser: `/APP_ID` parses without a UCS version
   * and without a server, `@SERVER/APP_ID` without a UCS version but with the server.
   */
  lemma EmptyUcsVersion(a: AppSpec)
    requires a.appId.Some? && '=' !in a.appId.value
    requires a.ucsVersion == Some("")
    requires a.server.Some? ==> '/' !in a.server.value && '=' !in a.server.value
    ensures ParseAppIdString(Some(FormatAppIdString(a))) == a.(ucsVersion := None)
  {
    var ucsText := if a.server.Some? then "@" + a.server.value else "";
    var rest := ucsText + "/" + a.appId.value;
    var s := FormatAppIdString(a);
    assert s == rest + (if a.appVersion.Some? then "=" + a.appVersion.value else "");
    assert '=' !in rest;
    SplitTailJoin(rest, '=', a.appVersion);
    SplitHeadJoin(Some(ucsText), '/', a.appId.value);
    assert ParseAppIdString(Some(s)) == AppSpec(a.appId, a.appVersion, SplitUcsPart(Some(ucsText)).0, SplitUcsPart(Some(ucsText)).1);
    EmptyUcsPart(a.server);
  }

  /** The UCS part `@SERVER` (or nothing) splits to no UCS version and that server. */
  lemma EmptyUcsPart(server: Option<string>)
    ensures SplitUcsPart(Some(if server.Some? then "@" + server.value else "")) == (None, server)
  {
    if server.Some? {
      SplitTailJoin([], '@', server);
      assert [] + ['@'] + server.value == "@" + server.value;
    }
  }
}
