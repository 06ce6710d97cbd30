/**
 * The request-line step of the main state machine (`ParseRequestLine`):
 * a method, a target and a version, each pair separated by a single space or
 * tab. Only `GET` and `HTTP/1.1` are accepted, both compared without
 * regard to ASCII case, and an absolute-form `http://host[:port]` prefix is
 * cut down to its path.
 *
 * The text handed in is the C string `GetLine()` yields, so it holds no NUL.
 * `ParseRequestLineText` is the intended parse, `ParseRequestLineTextAsWritten`
 * the code as it stands.
 */
module RequestLineParser {
  import opened Wrappers
  import opened CText
  import opened Connection

  /** The separator set `strpbrk` is given: space and horizontal tab. */
  const Separators: set<char> := {' ', '\t'}

  const MethodGet: string := "GET"
  const Version11: string := "HTTP/1.1"
  const Scheme: string := "http://"

  /** The three fields a request line sets: `method_`, `url_`, `version_`. */
  datatype RequestLine = RequestLine(requestMethod: Method, url: string, version: string)

  predicate NoSep(s: string) {
    forall k :: 0 <= k < |s| ==> s[k] !in Separators
  }

  /** `strncasecmp(target, "http://", 7) == 0`: a shorter target compares its
      terminating NUL against a letter of the scheme and differs. */
  predicate HasScheme(target: string) {
    |target| >= |Scheme| && EqualsIgnoreCase(target[..|Scheme|], Scheme)
  }

  /** The `url_` the target leaves: an absolute-form target is cut at the
      first `/` after the scheme (`None` when there is none, a null `url_`);
      any other target is kept whole. */
  function StripScheme(target: string): (r: Option<string>)
    ensures !HasScheme(target) ==> r == Some(target)
    ensures HasScheme(target) && r.Some? ==>
      |Scheme| + |r.value| <= |target| && |r.value| > 0 && r.value[0] == '/'
  {
    if HasScheme(target) then
      match FirstIndex(target[|Scheme|..], {'/'})
      case None => None
      case Some(j) => Some(target[|Scheme| + j..])
    else Some(target)
  }

  /** Whatever `StripScheme` keeps is a tail of the target: the url is never
      rebuilt, only pointed into. */
  lemma StripSchemeKeepsTail(target: string)
    ensures var r := StripScheme(target);
      r.Some? ==> |r.value| <= |target| && r.value == target[|target| - |r.value|..]
  {
  }

  /** The intended parse: `None` stands for `BAD_REQUEST`. A line without any
      separator is rejected too (the code dereferences a null pointer there). */
  function ParseRequestLineText(text: string): (r: Option<RequestLine>)
    ensures r.Some? ==> r.value.requestMethod == Get
    ensures r.Some? ==> |r.value.url| > 0 && r.value.url[0] == '/'
    ensures r.Some? ==> EqualsIgnoreCase(r.value.version, Version11)
  {
    match FirstIndex(text, Separators)
    case None => None
    case Some(i) =>
      if !EqualsIgnoreCase(text[..i], MethodGet) then None
      else
        var rest := text[i + 1..];
        match FirstIndex(rest, Separators)
        case None => None
        case Some(j) =>
          var version := rest[j + 1..];
          if !EqualsIgnoreCase(version, Version11) then None
          else
            match StripScheme(rest[..j])
            case None => None
            case Some(path) =>
              if |path| > 0 && path[0] == '/' then Some(RequestLine(Get, path, version)) else None
  }

  /** `ParseRequestLine(text)` on a connection: success stores the three
      fields and moves the main state machine to the header state, returning
      `NO_REQUEST`; failure returns `BAD_REQUEST`. */
  function ParseRequestLine(c: Conn, text: string): (r: (HttpCode, Conn))
    ensures r.0 == NoRequest || r.0 == BadRequest
    ensures r.0 == NoRequest <==> ParseRequestLineText(text).Some?
    ensures r.0 == BadRequest ==> r.1 == c
    ensures r.0 == NoRequest ==>
      && r.1.state == CheckHeader
      && r.1.requestMethod == Get
      && r.1.url == Some(ParseRequestLineText(text).value.url)
      && r.1.version == Some(ParseRequestLineText(text).value.version)
      && r.1.(state := c.state, requestMethod := c.requestMethod, url := c.url, version := c.version) == c
  {
    match ParseRequestLineText(text)
    case None => (BadRequest, c)
    case Some(line) =>
      (NoRequest, c.(state := CheckHeader, requestMethod := line.requestMethod,
                     url := Some(line.url), version := Some(line.version)))
  }

  // ---------------------------------------------------------------------
  // The grammar, stated without the scan
  // ---------------------------------------------------------------------

  /** `text` splits at separators `i < j` into a method, a target and a
      version, the first two free of separators. */
  ghost predicate SplitAt(text: string, i: int, j: int) {
    && 0 <= i < j < |text|
    && text[i] in Separators && text[j] in Separators
    && NoSep(text[..i]) && NoSep(text[i + 1..j])
  }

  /** `path` is what a target names: the part from the first `/` after the
      scheme for an absolute-form target, the target itself otherwise. */
  ghost predicate PathOf(target: string, path: string) {
    if HasScheme(target) then
      exists j :: PathStart(target, j) && path == target[j..]
    else path == target
  }

  ghost predicate PathStart(target: string, j: int) {
    && |Scheme| <= j < |target| && target[j] == '/'
    && forall k :: |Scheme| <= k < j ==> target[k] != '/'
  }

  /** A request line the server accepts, and the fields it yields. */
  ghost predicate Accepts(text: string, line: RequestLine) {
    exists i, j ::
      && SplitAt(text, i, j)
      && EqualsIgnoreCase(text[..i], MethodGet)
      && line.version == text[j + 1..]
      && EqualsIgnoreCase(line.version, Version11)
      && PathOf(text[i + 1..j], line.url)
      && |line.url| > 0 && line.url[0] == '/'
      && line.requestMethod == Get
  }

  lemma StripSchemeIsPathOf(target: string, path: string)
    ensures StripScheme(target) == Some(path) <==> PathOf(target, path)
  {
    if HasScheme(target) {
      var tail := target[|Scheme|..];
      if StripScheme(target) == Some(path) {
        var j :| FirstIndex(tail, {'/'}) == Some(j);
        assert PathStart(target, |Scheme| + j) by {
          forall k | |Scheme| <= k < |Scheme| + j
            ensures target[k] != '/'
          {
            assert target[k] == tail[k - |Scheme|];
          }
        }
      }
      if PathOf(target, path) {
        var j :| PathStart(target, j) && path == target[j..];
        assert tail[j - |Scheme|] == '/';
      }
    }
  }

  /** Every line the parse accepts is a line of the grammar. */
  lemma ParseSound(text: string)
    requires ParseRequestLineText(text).Some?
    ensures Accepts(text, ParseRequestLineText(text).value)
  {
    var line := ParseRequestLineText(text).value;
    var i := FirstIndex(text, Separators).value;
    var rest := text[i + 1..];
    var j := FirstIndex(rest, Separators).value;
    var target := rest[..j];
    assert StripScheme(target) == Some(line.url);
    StripSchemeIsPathOf(target, line.url);
    assert text[i + 1..i + 1 + j] == target;
    assert text[i + 1 + j + 1..] == rest[j + 1..];
    assert NoSep(target);
    assert NoSep(text[..i]) by {
      var m := text[..i];
      forall k | 0 <= k < i ensures m[k] !in Separators {
        assert m[k] == text[k];
      }
    }
    var j' := i + 1 + j;
    assert text[j'] == rest[j];
    assert SplitAt(text, i, j');
    assert EqualsIgnoreCase(text[..i], MethodGet);
    assert line.version == text[j' + 1..] && EqualsIgnoreCase(line.version, Version11);
    assert PathOf(text[i + 1..j'], line.url);
  }

  /** Every line of the grammar is accepted, with the fields it spells. */
  lemma ParseComplete(text: string, line: RequestLine, i: int, j: int)
    requires SplitAt(text, i, j)
    requires EqualsIgnoreCase(text[..i], MethodGet)
    requires line.version == text[j + 1..] && EqualsIgnoreCase(line.version, Version11)
    requires PathOf(text[i + 1..j], line.url)
    requires |line.url| > 0 && line.url[0] == '/' && line.requestMethod == Get
    ensures ParseRequestLineText(text) == Some(line)
  {
    FirstSepAt(text, i);
    var rest := text[i + 1..];
    assert rest[..j - i - 1] == text[i + 1..j];
    assert rest[j - i - 1] == text[j];
    FirstSepAt(rest, j - i - 1);
    assert rest[j - i..] == text[j + 1..];
    StripSchemeIsPathOf(text[i + 1..j], line.url);
  }

  /** The parse accepts exactly the lines of the grammar, with those fields. */
  lemma ParseMatchesGrammar(text: string, line: RequestLine)
    ensures ParseRequestLineText(text) == Some(line) <==> Accepts(text, line)
  {
    if ParseRequestLineText(text) == Some(line) {
      ParseSound(text);
    }
    if Accepts(text, line) {
      var i, j :| && SplitAt(text, i, j)
        && EqualsIgnoreCase(text[..i], MethodGet)
        && line.version == text[j + 1..]
        && EqualsIgnoreCase(line.version, Version11)
        && PathOf(text[i + 1..j], line.url)
        && |line.url| > 0 && line.url[0] == '/'
        && line.requestMethod == Get;
      ParseComplete(text, line, i, j);
    }
  }

  /** A separator preceded only by other characters is the first one. */
  lemma FirstSepAt(s: string, i: int)
    requires 0 <= i < |s| && s[i] in Separators && NoSep(s[..i])
    ensures FirstIndex(s, Separators) == Some(i)
  {
    forall k | 0 <= k < i ensures s[k] !in Separators {
      assert s[..i][k] == s[k];
    }
  }

  /** `GET <target> HTTP/1.1` is accepted with the path the target names. */
  lemma AcceptsGetLine(target: string, path: string)
    requires NoSep(target) && PathOf(target, path)
    requires |path| > 0 && path[0] == '/'
    ensures ParseRequestLineText(MethodGet + " " + target + " " + Version11)
         == Some(RequestLine(Get, path, Version11))
  {
    var text := MethodGet + " " + target + " " + Version11;
    var line := RequestLine(Get, path, Version11);
    var i, j := 3, 4 + |target|;
    assert text[..i] == MethodGet;
    assert text[i + 1..j] == target;
    assert text[j + 1..] == Version11;
    assert SplitAt(text, i, j) by {
      assert text[i] == ' ' && text[j] == ' ';
    }
    ParseComplete(text, line, i, j);
  }

  /** Round trip: an origin-form request line built from a path comes back
      with that path, method `GET` and version `HTTP/1.1`. */
  lemma OriginFormRoundTrip(path: string)
    requires |path| > 0 && path[0] == '/' && NoSep(path)
    ensures ParseRequestLineText(MethodGet + " " + path + " " + Version11)
         == Some(RequestLine(Get, path, Version11))
  {
    assert !HasScheme(path);
    AcceptsGetLine(path, path);
  }

  /** Round trip for the absolute form: `http://` and the authority are cut
      away and the path is kept. */
  lemma AbsoluteFormRoundTrip(host: string, path: string)
    requires |path| > 0 && path[0] == '/' && NoSep(path)
    requires NoSep(host) && '/' !in host
    ensures ParseRequestLineText(MethodGet + " " + Scheme + host + path + " " + Version11)
         == Some(RequestLine(Get, path, Version11))
  {
    var target := Scheme + host + path;
    AbsoluteTarget(host, path);
    AcceptsGetLine(target, path);
    assert MethodGet + " " + target + " " + Version11 == MethodGet + " " + Scheme + host + path + " " + Version11;
  }

  /** An `http://` target built from a host and a path has no separator and
      names that path. */
  lemma AbsoluteTarget(host: string, path: string)
    requires |path| > 0 && path[0] == '/' && NoSep(path)
    requires NoSep(host) && '/' !in host
    ensures NoSep(Scheme + host + path)
    ensures PathOf(Scheme + host + path, path)
  {
    var target := Scheme + host + path;
    assert target[..|Scheme|] == Scheme;
    forall k | 0 <= k < |target| ensures target[k] !in Separators {
      if k < |Scheme| {
      } else if k < |Scheme| + |host| {
        assert target[k] == host[k - |Scheme|];
      } else {
        assert target[k] == path[k - |Scheme| - |host|];
      }
    }
    assert PathStart(target, |Scheme| + |host|) by {
      forall k | |Scheme| <= k < |Scheme| + |host| ensures target[k] != '/' {
        assert target[k] == host[k - |Scheme|];
      }
    }
    assert target[|Scheme| + |host|..] == path;
    assert HasScheme(target);
  }

  /** A method other than `GET`, in any case, is a bad request. */
  lemma RejectsOtherMethod(m: string, sep: char, rest: string)
    requires NoSep(m) && sep in Separators && !EqualsIgnoreCase(m, MethodGet)
    ensures ParseRequestLineText(m + [sep] + rest).None?
  {
    var text := m + [sep] + rest;
    assert text[..|m|] == m;
    FirstSepAt(text, |m|);
  }

  /** A version other than `HTTP/1.1`, in any case, is a bad request. */
  lemma RejectsOtherVersion(target: string, version: string)
    requires NoSep(target) && !EqualsIgnoreCase(version, Version11)
    ensures ParseRequestLineText(MethodGet + " " + target + " " + version).None?
  {
    var text := MethodGet + " " + target + " " + version;
    assert text[..3] == MethodGet;
    FirstSepAt(text, 3);
    var rest := text[4..];
    assert rest == target + " " + version;
    assert rest[..|target|] == target;
    FirstSepAt(rest, |target|);
    assert rest[|target| + 1..] == version;
  }

  /** A line without any space or tab is a bad request. */
  lemma RejectsNoSeparator(text: string)
    requires NoSep(text)
    ensures ParseRequestLineText(text).None?
  {
  }

  /** A `GET` line without a second separator is a bad request. */
  lemma RejectsMissingVersion(target: string)
    requires NoSep(target)
    ensures ParseRequestLineText(MethodGet + " " + target).None?
  {
    var text := MethodGet + " " + target;
    assert text[..3] == MethodGet;
    FirstSepAt(text, 3);
    assert text[4..] == target;
  }

  /** An absolute-form target with no `/` after the authority is a bad
      request: `url_` ends up null. */
  lemma RejectsAbsoluteFormWithoutPath(host: string)
    requires NoSep(host) && '/' !in host
    ensures ParseRequestLineText(MethodGet + " " + Scheme + host + " " + Version11).None?
  {
    var target := Scheme + host;
    var text := MethodGet + " " + target + " " + Version11;
    assert text[..3] == MethodGet;
    FirstSepAt(text, 3);
    var rest := text[4..];
    assert rest == target + " " + Version11;
    assert NoSep(target) by {
      forall k | 0 <= k < |target| ensures target[k] !in Separators {
        if k >= |Scheme| {
          assert target[k] == host[k - |Scheme|];
        }
      }
    }
    assert rest[..|target|] == target;
    FirstSepAt(rest, |target|);
    assert rest[|target| + 1..] == Version11;
    assert target[..|Scheme|] == Scheme;
    assert target[|Scheme|..] == host;
  }

  /** Worked example: `GET /a/b HTTP/1.1` yields the path `/a/b`. */
  lemma ExampleGet()
    ensures ParseRequestLineText("GET /a/b HTTP/1.1") == Some(RequestLine(Get, "/a/b", Version11))
  {
    OriginFormRoundTrip("/a/b");
    assert MethodGet + " " + "/a/b" + " " + Version11 == "GET /a/b HTTP/1.1";
  }

  /** Worked example: `POST / HTTP/1.1` is a bad request. */
  lemma ExamplePost()
    ensures ParseRequestLineText("POST / HTTP/1.1").None?
  {
    RejectsOtherMethod("POST", ' ', "/ HTTP/1.1");
    assert "POST" + [' '] + "/ HTTP/1.1" == "POST / HTTP/1.1";
  }

  /** Worked example: `GET /x HTTP/1.0` is a bad request. */
  lemma ExampleVersion10()
    ensures ParseRequestLineText("GET /x HTTP/1.0").None?
  {
    assert !EqualsIgnoreCase("HTTP/1.0", Version11) by {
      assert Lower("HTTP/1.0"[7]) != Lower(Version11[7]);
    }
    RejectsOtherVersion("/x", "HTTP/1.0");
    assert MethodGet + " " + "/x" + " " + "HTTP/1.0" == "GET /x HTTP/1.0";
  }

  // ---------------------------------------------------------------------
  // The code as written
  // ---------------------------------------------------------------------

  /** What the literal `ParseRequestLine` does with a line: dereference a
      null pointer, reject it, or accept it with these fields. */
  datatype Verdict = Fault | Reject | Accept(line: RequestLine)

  /** The literal parse: no separator at all writes through the null pointer
      `strpbrk` returned, and the final check rejects a `url_` that *does*
      begin with `/`. */
  function ParseRequestLineTextAsWritten(text: string): (r: Verdict)
    ensures r == Fault <==> NoSep(text)
    ensures r.Accept? ==> r.line.requestMethod == Get && EqualsIgnoreCase(r.line.version, Version11)
    ensures r.Accept? ==> |r.line.url| == 0 || r.line.url[0] != '/'
  {
    match FirstIndex(text, Separators)
    case None => Fault
    case Some(i) =>
      if !EqualsIgnoreCase(text[..i], MethodGet) then Reject
      else
        var rest := text[i + 1..];
        match FirstIndex(rest, Separators)
        case None => Reject
        case Some(j) =>
          var version := rest[j + 1..];
          if !EqualsIgnoreCase(version, Version11) then Reject
          else
            match StripScheme(rest[..j])
            case None => Reject
            case Some(path) =>
              if |path| > 0 && path[0] == '/' then Reject else Accept(RequestLine(Get, path, version))
  }

  /** http_conn.cc:226: the code and the intended parse never accept the same
      line: every line the intended parse accepts is rejected, and every line
      the code accepts has a target that does not start with `/`. */
  lemma AsWrittenInvertsTargetCheck(text: string)
    ensures ParseRequestLineText(text).Some? ==> ParseRequestLineTextAsWritten(text) == Reject
    ensures ParseRequestLineTextAsWritten(text).Accept? ==>
      && ParseRequestLineText(text).None?
      && (|ParseRequestLineTextAsWritten(text).line.url| == 0
          || ParseRequestLineTextAsWritten(text).line.url[0] != '/')
  {
  }

  /** http_conn.cc:226 on the commonest request, `GET /index.html HTTP/1.1`
      and every other origin-form line: the code refuses it, the intended
      parse accepts it. */
  lemma AsWrittenRejectsOriginForm(path: string)
    requires |path| > 0 && path[0] == '/' && NoSep(path)
    ensures ParseRequestLineTextAsWritten(MethodGet + " " + path + " " + Version11) == Reject
    ensures ParseRequestLineText(MethodGet + " " + path + " " + Version11)
         == Some(RequestLine(Get, path, Version11))
  {
    OriginFormRoundTrip(path);
    AsWrittenInvertsTargetCheck(MethodGet + " " + path + " " + Version11);
  }

  /** http_conn.cc:193-194: a line without a space or tab makes the code write
      through a null pointer; the intended parse rejects it. */
  lemma AsWrittenFaultsWithoutSeparator(text: string)
    requires NoSep(text)
    ensures ParseRequestLineTextAsWritten(text) == Fault
    ensures ParseRequestLineText(text).None?
  {
  }
}
