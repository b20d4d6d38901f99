/** What the request parser accepts, stated on bytes, and what the framing of the handler guarantees it. */
module Grammar {
  import opened Strings
  import opened Splitting
  import opened Text
  import opened Headers
  import opened Requests
  import Buffers

  /** Every line followed by CRLF. */
  function Terminated(lines: seq<string>): string {
    if lines == [] then "" else lines[0] + CRLF + Terminated(lines[1..])
  }

  predicate Names(name: string, m: Method) {
    match m
    case GET => SameLetters("GET", name)
    case HEAD => SameLetters("HEAD", name)
    case UNSUPPORTED_METHOD => false
  }

  /** Three space-free words with one space between them, and possibly one space after them. */
  predicate Words(line: string, name: string, url: string, version: string) {
    && ' ' !in name && ' ' !in url && ' ' !in version
    && (line == name + " " + url + " " + version || line == name + " " + url + " " + version + " ")
  }

  /** The request line: a supported method, a resource, and the supported version, up to letter case. */
  ghost predicate IsRequestLine(line: string, m: Method, url: string) {
    exists name, version :: Words(line, name, url, version) && Names(name, m) && SameLetters("HTTP/1.1", version)
  }

  /** The whole text of a request: a request line and header lines, each free of CRLF and ended by it, then an
      empty line. */
  ghost predicate IsRequestText(s: string, lines: seq<string>, m: Method, url: string) {
    && lines != []
    && s == Terminated(lines) + CRLF
    && (forall l :: l in lines ==> !Occurs(l, CRLF))
    && IsRequestLine(lines[0], m, url)
    && (forall i :: 1 <= i < |lines| ==> IsHeaderLine(lines[i]))
  }

  // ---- The request line ----

  lemma {:induction false} ThreeWords(line: string, a: string, b: string, c: string)
    requires c != ""
    ensures Split(line, SPACE) == [a, b, c] <==> Words(line, a, b, c)
  {
    var ts := [a, b, c];
    CleanByte(a, ' ');
    CleanByte(b, ' ');
    CleanByte(c, ' ');
    OccursByte(c, ' ');
    SplitCharacterised(line, SPACE, ts);
    IntercalateThree(a, b, c, SPACE);
    assert (forall i :: 0 <= i < |ts| - 1 ==> Clean(ts[i], SPACE)) <==> Clean(ts[0], SPACE) && Clean(ts[1], SPACE);
  }

  lemma {:induction false} IntercalateThree(a: string, b: string, c: string, d: string)
    ensures Intercalate([a, b, c], d) == a + d + b + d + c
  {
    var ts := [a, b, c];
    assert ts[1..] == [b, c] && ts[1..][1..] == [c];
    assert Intercalate(ts[1..], d) == b + d + c;
    assert a + d + (b + d + c) == a + d + b + d + c;
  }

  /** A space-free word is recognised exactly by its letters. */
  lemma {:induction false} RecognisedWords(name: string, version: string, m: Method)
    requires ' ' !in name && ' ' !in version && m != UNSUPPORTED_METHOD
    ensures ToMethod(name) == m <==> Names(name, m)
    ensures ToVersion(version) == HTTP_1_1 <==> SameLetters("HTTP/1.1", version)
  {
    SpaceFreeWord(name, "GET");
    SpaceFreeWord(name, "HEAD");
    SpaceFreeWord(version, "HTTP/1.1");
  }

  lemma {:induction false} SpaceFreeWord(s: string, w: string)
    requires ' ' !in s && ' ' !in w && forall c :: c in w ==> !('a' <= c <= 'z')
    ensures Format(s) == w <==> SameLetters(w, s)
  {
    TrimSpaceFree(s);
    TrimSpaceFree(w);
    FormatCapital(w);
    ToUpperSameLetters(w, s);
  }

  lemma {:induction false} RequestLineForward(line: string, m: Method, url: string)
    requires IsRequestLine(line, m, url)
    ensures ParseRequestLine(line) == Some((m, Route(url)))
  {
    var name, version :| Words(line, name, url, version) && Names(name, m) && SameLetters("HTTP/1.1", version);
    ThreeWords(line, name, url, version);
    RecognisedWords(name, version, m);
    ThreeTokens(line, name, url, version);
  }

  lemma {:induction false} ThreeTokens(line: string, name: string, url: string, version: string)
    requires Split(line, SPACE) == [name, url, version]
    requires ToMethod(name) != UNSUPPORTED_METHOD && ToVersion(version) == HTTP_1_1
    ensures ParseRequestLine(line) == Some((ToMethod(name), Route(url)))
  {
  }

  /** The request-line parser accepts exactly the grammar, and returns its method and resource. */
  lemma {:induction false} RequestLineAccepted(line: string, m: Method, r: string)
    ensures ParseRequestLine(line) == Some((m, r)) <==> exists url :: IsRequestLine(line, m, url) && IsResource(url, r)
  {
    if ParseRequestLine(line) == Some((m, r)) {
      var ts := Split(line, SPACE);
      SplitByteTokens(line, ' ');
      var name, url, version := ts[0], ts[1], ts[2];
      RecognisedWords(name, version, m);
      ThreeWords(line, name, url, version);
      assert Words(line, name, url, version);
      assert IsRequestLine(line, m, url);
      RouteIsResource(url, r);
    }
    if exists url :: IsRequestLine(line, m, url) && IsResource(url, r) {
      var url :| IsRequestLine(line, m, url) && IsResource(url, r);
      RouteIsResource(url, r);
      RequestLineForward(line, m, url);
    }
  }

  // ---- The whole request ----

  lemma {:induction false} TerminatedTokens(lines: seq<string>)
    ensures Intercalate(lines + [""], CRLF) == Terminated(lines)
    decreases |lines|
  {
    if lines == [] {
      assert lines + [""] == [""];
    } else {
      TerminatedTokens(lines[1..]);
      assert (lines + [""])[1..] == lines[1..] + [""];
    }
  }

  /** Splitting at CRLF yields these lines and an empty token exactly for the text made of them. */
  lemma {:induction false} LinesOfText(s: string, lines: seq<string>)
    ensures Split(s, CRLF) == lines + [""]
       <==> s == Terminated(lines) + CRLF && forall l :: l in lines ==> !Occurs(l, CRLF)
  {
    var ts := lines + [""];
    SplitCharacterised(s, CRLF, ts);
    TerminatedTokens(lines);
    forall l: string ensures Clean(l, CRLF) <==> !Occurs(l, CRLF) {
      CleanCrlf(l);
    }
    assert !Occurs("", CRLF);
    assert forall i :: 0 <= i < |lines| ==> ts[i] == lines[i];
  }

  lemma {:induction false} MembersFirst<T>(s: seq<T>)
    requires s != []
    ensures forall x :: x in s <==> x == s[0] || x in s[1..]
  {
  }

  lemma {:induction false} HeaderLinesAccepted(lines: seq<string>)
    ensures ParseHeaderLines(lines).Good? <==> forall l :: l in lines ==> IsHeaderLine(l)
    ensures ParseHeaderLines(lines).Good? ==> var hs := ParseHeaderLines(lines).headers;
        |hs| == |lines| && forall i :: 0 <= i < |hs| ==> ParseHeader(lines[i]) == Some(hs[i])
    decreases |lines|
  {
    if lines != [] {
      var l, tail := lines[0], lines[1..];
      assert lines == [l] + tail;
      HeaderLineAccepted(l);
      HeaderLinesAccepted(tail);
      MembersFirst(lines);
      match ParseHeader(l) {
        case None =>
          assert ParseHeaderLines(lines) == BadLine(l);
        case Some(h) =>
          GoodLine(l, tail, h);
          GoodLineAt(lines, tail, h);
      }
    }
  }

  lemma {:induction false} GoodLineAt(lines: seq<string>, tail: seq<string>, h: Header)
    requires lines != [] && tail == lines[1..] && ParseHeader(lines[0]) == Some(h)
    requires ParseHeaderLines(tail).Good? ==> var hs := ParseHeaderLines(tail).headers;
        |hs| == |tail| && forall i :: 0 <= i < |hs| ==> ParseHeader(tail[i]) == Some(hs[i])
    ensures ParseHeaderLines(tail).Good? ==> var hs := [h] + ParseHeaderLines(tail).headers;
        |hs| == |lines| && forall i :: 0 <= i < |hs| ==> ParseHeader(lines[i]) == Some(hs[i])
  {
    assert forall i :: 0 < i < |lines| ==> lines[i] == tail[i - 1];
  }

  lemma {:induction false} TokensBetween(lines: seq<string>)
    requires lines != []
    ensures (lines + [""])[1..|lines + [""]| - 1] == lines[1..]
    ensures forall l :: l in lines[1..] ==> exists i :: 1 <= i < |lines| && lines[i] == l
  {
  }

  lemma {:induction false} RequestTextParses(s: string, lines: seq<string>, m: Method, url: string)
    requires IsRequestText(s, lines, m, url)
    ensures ParseRequest(s).Valid?
    ensures ParseRequest(s).method_ == m && ParseRequest(s).url == Route(url)
    ensures ParseHeaderLines(lines[1..]) == Good(ParseRequest(s).headers)
  {
    LinesOfText(s, lines);
    TokensBetween(lines);
    HeaderLinesAccepted(lines[1..]);
    RequestLineForward(lines[0], m, url);
  }

  lemma {:induction false} ParsedHasText(s: string) returns (lines: seq<string>, url: string)
    requires ParseRequest(s).Valid?
    ensures IsRequestText(s, lines, ParseRequest(s).method_, url)
  {
    lines := ParsedLines(s);
    HeaderLinesAccepted(lines[1..]);
    var r := ParseRequestLine(lines[0]).value;
    url := ParsedLine(lines[0], r.0, r.1);
    assert forall i :: 1 <= i < |lines| ==> lines[i] == lines[1..][i - 1];
  }

  lemma {:induction false} ParsedLines(s: string) returns (lines: seq<string>)
    requires ParseRequest(s).Valid?
    ensures lines != [] && s == Terminated(lines) + CRLF && forall l :: l in lines ==> !Occurs(l, CRLF)
    ensures ParseRequestLine(lines[0]) == Some((ParseRequest(s).method_, ParseRequest(s).url))
    ensures ParseHeaderLines(lines[1..]).Good?
  {
    var tokens := Split(s, CRLF);
    lines := EndsEmpty(tokens);
    ValidTokens(lines);
    LinesOfText(s, lines);
  }

  lemma {:induction false} EndsEmpty(tokens: seq<string>) returns (lines: seq<string>)
    requires |tokens| >= 2 && tokens[|tokens| - 1] == ""
    ensures tokens == lines + [""] && lines != []
  {
    lines := tokens[..|tokens| - 1];
  }

  lemma {:induction false} ValidTokens(lines: seq<string>)
    requires lines != [] && ParseTokens(lines + [""]).Valid?
    ensures var p := ParseTokens(lines + [""]);
      ParseRequestLine(lines[0]) == Some((p.method_, p.url)) && ParseHeaderLines(lines[1..]).Good?
  {
    TokensBetween(lines);
  }

  lemma {:induction false} ParsedLine(line: string, m: Method, r: string) returns (url: string)
    requires ParseRequestLine(line) == Some((m, r))
    ensures IsRequestLine(line, m, url) && r == Route(url)
  {
    RequestLineAccepted(line, m, r);
    url :| IsRequestLine(line, m, url) && IsResource(url, r);
    RouteIsResource(url, r);
  }

  /** Request acceptance is exactly the grammar, and the stored fields are those of the text: the method and the
      routed resource of the first line, and one header for each later line, in order. */
  lemma {:induction false} RequestAccepted(s: string)
    ensures ParseRequest(s).Valid? <==> exists lines, m, url :: IsRequestText(s, lines, m, url)
    ensures forall lines, m, url :: IsRequestText(s, lines, m, url) ==>
        var p := ParseRequest(s);
        && p.Valid? && p.method_ == m && IsResource(url, p.url) && |p.headers| == |lines| - 1
        && forall i :: 0 <= i < |p.headers| ==> ParseHeader(lines[i + 1]) == Some(p.headers[i])
  {
    if ParseRequest(s).Valid? {
      var _, _ := ParsedHasText(s);
    }
    forall lines, m, url | IsRequestText(s, lines, m, url)
      ensures
        var p := ParseRequest(s);
        && p.Valid? && p.method_ == m && IsResource(url, p.url) && |p.headers| == |lines| - 1
        && forall i :: 0 <= i < |p.headers| ==> ParseHeader(lines[i + 1]) == Some(p.headers[i])
    {
      RequestTextParses(s, lines, m, url);
      RouteIsResource(url, Route(url));
      HeaderLinesAccepted(lines[1..]);
      assert forall i :: 0 <= i < |lines| - 1 ==> lines[1..][i] == lines[i + 1];
    }
  }

  // ---- Refusals ----

  lemma {:induction false} HeaderRefused(lines: seq<string>, i: nat)
    requires i < |lines| && !IsHeaderLine(lines[i]) && forall j :: 0 <= j < i ==> IsHeaderLine(lines[j])
    ensures ParseHeaderLines(lines) == BadLine(lines[i])
    decreases i
  {
    var l, tail := lines[0], lines[1..];
    assert lines == [l] + tail;
    HeaderLineAccepted(l);
    if i > 0 {
      HeaderRefused(tail, i - 1);
      GoodLine(l, tail, ParseHeader(l).value);
    }
  }

  lemma {:induction false} TokensOfLines(s: string, lines: seq<string>)
    requires lines != [] && s == Terminated(lines) + CRLF && forall l :: l in lines ==> !Occurs(l, CRLF)
    ensures ParseRequest(s) == match ParseRequestLine(lines[0])
      case None => Invalid("Request line error")
      case Some((m, url)) =>
        match ParseHeaderLines(lines[1..])
        case BadLine(line) => Invalid("Fail to parse header line:" + line)
        case Good(hs) => Valid(m, url, hs)
  {
    LinesOfText(s, lines);
    TokensBetween(lines);
  }

  ghost predicate StartsWithRequestLine(lines: seq<string>) {
    lines != [] && exists m, url :: IsRequestLine(lines[0], m, url)
  }

  lemma {:induction false} RequestLineNeeded(lines: seq<string>)
    requires lines != []
    ensures ParseRequestLine(lines[0]).Some? <==> StartsWithRequestLine(lines)
  {
    if ParseRequestLine(lines[0]).Some? {
      var (m, r) := ParseRequestLine(lines[0]).value;
      RequestLineAccepted(lines[0], m, r);
    }
    if StartsWithRequestLine(lines) {
      var m, url :| IsRequestLine(lines[0], m, url);
      RequestLineForward(lines[0], m, url);
    }
  }

  ghost predicate FirstBadHeader(lines: seq<string>, i: nat) {
    1 <= i < |lines| && !IsHeaderLine(lines[i]) && forall j :: 1 <= j < i ==> IsHeaderLine(lines[j])
  }

  /** The reason an invalid frame is refused for: its first line, or else its first line that is no header line. */
  lemma {:induction false} RefusalReasons(s: string, lines: seq<string>, i: nat)
    requires lines != [] && s == Terminated(lines) + CRLF && forall l :: l in lines ==> !Occurs(l, CRLF)
    ensures !StartsWithRequestLine(lines) ==> ParseRequest(s) == Invalid("Request line error")
    ensures StartsWithRequestLine(lines) && FirstBadHeader(lines, i) ==>
      ParseRequest(s) == Invalid("Fail to parse header line:" + lines[i])
  {
    TokensOfLines(s, lines);
    RequestLineNeeded(lines);
    if FirstBadHeader(lines, i) {
      assert forall j :: 0 <= j < |lines| - 1 ==> lines[1..][j] == lines[j + 1];
      HeaderRefused(lines[1..], i - 1);
    }
  }

  // ---- Frames always have the shape of a request ----

  /** The text after the first line of a frame is the bare empty line or again a frame that starts with a line. */
  lemma {:induction false} FrameTail(f: string) returns (i: nat)
    requires Buffers.IsFrame(f, CRLF2)
    ensures Find(f, CRLF) == Some(i) && i + 4 <= |f|
    ensures f[i + 2..] == CRLF || (Buffers.IsFrame(f[i + 2..], CRLF2) && !At(f[i + 2..], CRLF, 0))
  {
    var n := |f|;
    CrlfAt(f, n - 4);
    assert Occurs(f, CRLF) by { assert At(f, CRLF, n - 4); }
    i := Find(f, CRLF).value;
    CrlfAt(f, i);
    CrlfAt(f, n - 2);
    if i < n - 4 {
      assert i != n - 5;
      FrameShrinks(f, i);
    } else {
      assert f[i + 2..] == CRLF;
    }
  }

  lemma {:induction false} FrameShrinks(f: string, i: nat)
    requires Buffers.IsFrame(f, CRLF2)
    requires i + 6 <= |f| && At(f, CRLF, i)
    ensures Buffers.IsFrame(f[i + 2..], CRLF2) && !At(f[i + 2..], CRLF, 0)
  {
    var k, rest := |f| - 6 - i, f[i + 2..];
    CrlfAt(f, i);
    AtRest(f, CRLF, i + 2, 0);
    AtRest(f, CRLF2, i + 2, k);
    forall j: nat | j < k ensures !At(rest, CRLF2, j) {
      AtRest(f, CRLF2, i + 2, j);
    }
    FindIs(rest, CRLF2, k);
  }

  lemma {:induction false} CrlfAloneSplits()
    ensures Split(CRLF, CRLF) == [""]
  {
    assert At(CRLF, CRLF, 0);
    SplitStep(CRLF, CRLF, 0);
  }

  /** Every frame the handler pops passes the format check of the parser: its CRLF tokens are the request line,
      header lines none of which is empty, and one empty token. This needs the match to be leftmost and CRLF not
      to overlap itself. */
  lemma {:induction false} FramePassesFormatCheck(f: string)
    requires Buffers.IsFrame(f, CRLF2)
    ensures var tokens := Split(f, CRLF);
      && |tokens| >= 2 && tokens[|tokens| - 1] == ""
      && (forall i :: 0 < i < |tokens| - 1 ==> tokens[i] != "")
      && (!At(f, CRLF, 0) ==> tokens[0] != "")
    decreases |f|
  {
    var i := FrameTail(f);
    SplitStep(f, CRLF, i);
    var rest := f[i + 2..];
    if rest == CRLF {
      CrlfAloneSplits();
    } else {
      FramePassesFormatCheck(rest);
    }
  }

  lemma {:induction false} FrameIsNeverMisshapen(f: string)
    requires Buffers.IsFrame(f, CRLF2)
    ensures ParseRequest(f) != Invalid("Request format wrong.")
  {
    FramePassesFormatCheck(f);
    if ParseRequest(f).Invalid? && ParseRequest(f).reason != "Request line error" {
      assert ParseRequest(f).reason[0] == 'F';
    }
  }

  // ---- A valid request is a frame ----

  lemma {:induction false} CleanStart(l: string, after: string)
    requires Clean(l, CRLF)
    ensures forall j: nat :: j < |l| ==> !At(l + CRLF + after, CRLF, j)
  {
    forall j: nat | j < |l| ensures !At(l + CRLF + after, CRLF, j) {
      assert !At(l + CRLF, CRLF, j);
      AtPrefix(l + CRLF, after, CRLF, j);
    }
  }

  /** A line in front of a text that does not start with an empty line moves the first empty line by its length. */
  lemma {:induction false} LineInFront(l: string, after: string, k: nat)
    requires Clean(l, CRLF) && Find(after, CRLF2) == Some(k) && !At(after, CRLF, 0)
    ensures Find(l + CRLF + after, CRLF2) == Some(|l| + 2 + k)
  {
    var a := l + CRLF;
    var s := a + after;
    CleanStart(l, after);
    AtShift(a, after, CRLF, 0);
    AtShift(a, after, CRLF2, k);
    forall j: nat | j < |l| + 2 + k ensures !At(s, CRLF2, j) {
      CrlfAt(s, j);
      if j >= |a| {
        AtShift(a, after, CRLF2, j - |a|);
      } else if j == |l| + 1 {
        assert s[j] == '\n';
      }
    }
    FindIs(s, CRLF2, |l| + 2 + k);
  }

  lemma {:induction false} LastLine(l: string)
    requires Clean(l, CRLF)
    ensures Find(l + CRLF + CRLF, CRLF2) == Some(|l|)
  {
    var s := l + CRLF + CRLF;
    CleanStart(l, CRLF);
    assert s[|l|..|l| + 4] == CRLF2;
    forall j: nat | j < |l| ensures !At(s, CRLF2, j) {
      CrlfAt(s, j);
    }
    FindIs(s, CRLF2, |l|);
  }

  /** The last part of a request: the bare empty line, or a frame that starts with a line. */
  predicate IsTail(s: string) {
    s == CRLF || (Buffers.IsFrame(s, CRLF2) && !At(s, CRLF, 0))
  }

  lemma {:induction false} FrameWithLine(l: string, after: string)
    requires l != "" && Clean(l, CRLF) && IsTail(after)
    ensures Buffers.IsFrame(l + CRLF + after, CRLF2) && !At(l + CRLF + after, CRLF, 0)
  {
    CleanStart(l, after);
    if after == CRLF {
      LastLine(l);
    } else {
      LineInFront(l, after, |after| - 4);
    }
  }

  lemma {:induction false} TerminatedIsFrame(lines: seq<string>)
    requires forall l :: l in lines ==> l != "" && Clean(l, CRLF)
    ensures IsTail(Terminated(lines) + CRLF)
    ensures lines != [] ==> Buffers.IsFrame(Terminated(lines) + CRLF, CRLF2)
    decreases |lines|
  {
    if lines == [] {
      assert "" + CRLF == CRLF;
    } else {
      var l, tail := lines[0], lines[1..];
      assert lines == [l] + tail;
      assert l in lines && forall x :: x in tail ==> x in lines;
      TerminatedIsFrame(tail);
      TerminatedCons(l, tail);
      FrameWithLine(l, Terminated(tail) + CRLF);
    }
  }

  lemma {:induction false} TerminatedCons(l: string, lines: seq<string>)
    ensures Terminated([l] + lines) + CRLF == l + CRLF + (Terminated(lines) + CRLF)
  {
    assert ([l] + lines)[1..] == lines;
  }

  /** A valid request is exactly one frame: its only CRLFCRLF is its ending. */
  lemma {:induction false} RequestIsFrame(s: string)
    requires ParseRequest(s).Valid?
    ensures Buffers.IsFrame(s, CRLF2)
  {
    var lines, url := ParsedHasText(s);
    forall l | l in lines ensures l != "" && Clean(l, CRLF) {
      CleanCrlf(l);
      var i :| 0 <= i < |lines| && lines[i] == l;
      if i == 0 {
        assert IsRequestLine(l, ParseRequest(s).method_, url);
      }
    }
    TerminatedIsFrame(lines);
  }

  /** Pipelined valid requests are framed as those requests, in order, and nothing is left. */
  lemma {:induction false} PipelineFrames(ss: seq<string>)
    requires forall s :: s in ss ==> ParseRequest(s).Valid?
    ensures Buffers.Frames(Concat(ss), CRLF2) == ss && Buffers.Residue(Concat(ss), CRLF2) == ""
  {
    forall s | s in ss ensures Buffers.IsFrame(s, CRLF2) {
      RequestIsFrame(s);
    }
    assert Concat(ss) + "" == Concat(ss);
    Buffers.DecompositionUnique(Concat(ss), CRLF2, ss, "");
  }

  // ---- Keep-alive ----

  /** The lines that ask for a persistent connection: `Connection`, a colon, `Keep-Alive`, possibly one more colon;
      letter case and surrounding spaces do not matter. */
  ghost predicate IsKeepAliveLine(line: string) {
    exists name, value ::
      && ':' !in name && ':' !in value
      && Spells(name, "Connection") && Spells(value, "Keep-Alive")
      && (line == name + COLON + value || line == name + COLON + value + COLON)
  }

  lemma {:induction false} FormattedWords()
    ensures Format("Connection") == "CONNECTION" && Format("Keep-Alive") == "KEEP-ALIVE"
  {
    TrimSpaceFree("Connection");
    TrimSpaceFree("Keep-Alive");
  }

  lemma {:induction false} KeepAliveFields(name: string, value: string)
    ensures AsksKeepAlive(Header(name, value)) <==> Spells(name, "Connection") && Spells(value, "Keep-Alive")
    ensures Spells(value, "Keep-Alive") ==> value != ""
  {
    FormatRecognises(name, HEADER_CONNECTION);
    FormatRecognises(value, CONNECTION_KEEP_ALIVE);
  }

  lemma {:induction false} ColonSurvivesFormat(v: string)
    requires v != "" && v[0] == ':'
    ensures Format(v) != "KEEP-ALIVE"
  {
    assert FirstNonSpace(v, 0) == 0;
    assert LastNonSpace(v, |v|) > 0;
    assert Trim(v)[0] == ':';
    assert Format(v)[0] == ':';
  }

  lemma {:induction false} OneTokenValue(v: string)
    requires v != "" && |Split(v, COLON)| == 1
    ensures var t := Split(v, COLON)[0]; ':' !in t && (v == t || v == t + COLON)
  {
    SplitGivesTokens(v, COLON);
    SplitByteTokens(v, ':');
  }

  lemma {:induction false} ValueWithoutColon(t: string)
    requires ':' !in t && t != ""
    ensures Split(t, COLON) == [t] && Split(t + COLON, COLON) == [t]
  {
    OccursByte(t, ':');
    SplitAtColon(t, "");
    assert t + COLON + "" == t + COLON;
    assert Split("", COLON) == [];
  }

  lemma {:induction false} KeepAliveLineForward(line: string, name: string, value: string)
    requires ':' !in name && ':' !in value && value != ""
    requires line == name + COLON + value || line == name + COLON + value + COLON
    ensures ParseHeader(line) == Some(Header(name, value))
  {
    var rest := if line == name + COLON + value then value else value + COLON;
    assert line == name + COLON + rest;
    SplitAtColon(name, rest);
    ValueWithoutColon(value);
    ParseAtFirstColon(line, |name|);
  }

  lemma {:induction false} KeepAliveLineBackward(line: string)
    requires ParseHeader(line).Some? && AsksKeepAlive(ParseHeader(line).value)
    ensures IsKeepAliveLine(line)
  {
    var name, v := HeaderParts(line);
    KeepAliveParts(line, name, v);
  }

  lemma {:induction false} HeaderParts(line: string) returns (name: string, v: string)
    requires ParseHeader(line).Some?
    ensures line == name + COLON + v && ':' !in name && v != ""
    ensures Split(v, COLON) != [] && ParseHeader(line) == Some(Header(name, Join(Split(v, COLON))))
  {
    FirstColon(line);
    HeaderLineAccepted(line);
    var i := Find(line, COLON).value;
    ParseAtFirstColon(line, i);
    CutAtColon(line, i);
    name, v := line[..i], line[i + 1..];
  }

  lemma {:induction false} CutAtColon(line: string, i: nat)
    requires i < |line| && line[i] == ':'
    ensures line == line[..i] + COLON + line[i + 1..]
  {
  }

  lemma {:induction false} KeepAliveParts(line: string, name: string, v: string)
    requires line == name + COLON + v && ':' !in name && v != "" && Split(v, COLON) != []
    requires AsksKeepAlive(Header(name, Join(Split(v, COLON))))
    ensures IsKeepAliveLine(line)
  {
    FormattedWords();
    var ts := Split(v, COLON);
    if |ts| == 1 {
      OneTokenValue(v);
      KeepAliveFields(name, ts[0]);
      assert name + COLON + (ts[0] + COLON) == name + COLON + ts[0] + COLON;
    } else {
      JoinStartsWithColon(ts);
      ColonSurvivesFormat(Join(ts));
    }
  }

  lemma {:induction false} JoinStartsWithColon(ts: seq<string>)
    requires |ts| > 1
    ensures Join(ts) != "" && Join(ts)[0] == ':'
  {
    assert JoinFrom(ts, 0) == COLON + ts[0] + JoinFrom(ts, 1);
  }

  lemma {:induction false} KeepAliveLines(line: string)
    ensures IsKeepAliveLine(line) <==> ParseHeader(line).Some? && AsksKeepAlive(ParseHeader(line).value)
  {
    if IsKeepAliveLine(line) {
      var name, value :| ':' !in name && ':' !in value && Spells(name, "Connection") && Spells(value, "Keep-Alive")
        && (line == name + COLON + value || line == name + COLON + value + COLON);
      KeepAliveFields(name, value);
      KeepAliveLineForward(line, name, value);
    }
    if ParseHeader(line).Some? && AsksKeepAlive(ParseHeader(line).value) {
      KeepAliveLineBackward(line);
    }
  }

  /** On a valid request the connection is kept exactly when one of its header lines is a keep-alive line. */
  lemma {:induction false} KeepAliveDetected(s: string, lines: seq<string>, m: Method, url: string)
    requires IsRequestText(s, lines, m, url)
    ensures ParseRequest(s).Valid?
    ensures !ClosesAfter(ParseRequest(s).headers) <==> exists i :: 1 <= i < |lines| && IsKeepAliveLine(lines[i])
  {
    RequestAccepted(s);
    var hs := ParseRequest(s).headers;
    forall i | 0 <= i < |hs| ensures IsKeepAliveLine(lines[i + 1]) <==> AsksKeepAlive(hs[i]) {
      KeepAliveLines(lines[i + 1]);
    }
    KeepAliveByIndex(hs, lines);
  }

  lemma {:induction false} KeepAliveByIndex(hs: seq<Header>, lines: seq<string>)
    requires |lines| == |hs| + 1
    requires forall i :: 0 <= i < |hs| ==> (IsKeepAliveLine(lines[i + 1]) <==> AsksKeepAlive(hs[i]))
    ensures !ClosesAfter(hs) <==> exists i :: 1 <= i < |lines| && IsKeepAliveLine(lines[i])
  {
    if i :| 1 <= i < |lines| && IsKeepAliveLine(lines[i]) {
      assert IsKeepAliveLine(lines[(i - 1) + 1]);
      assert AsksKeepAlive(hs[i - 1]);
    }
    if h :| h in hs && AsksKeepAlive(h) {
      var i :| 0 <= i < |hs| && hs[i] == h;
      assert IsKeepAliveLine(lines[i + 1]);
    }
  }

  function Normal(h: Header): Header {
    Header(Format(h.key), Format(h.value))
  }

  function NormalFields(hs: seq<Header>): set<Header> {
    set h | h in hs :: Normal(h)
  }

  const KEEP_ALIVE: Header := Header("CONNECTION", "KEEP-ALIVE")

  lemma {:induction false} NormalDecides(h: Header)
    ensures AsksKeepAlive(h) <==> Normal(h) == KEEP_ALIVE
  {
    FormattedWords();
  }

  lemma {:induction false} ClosesUnlessKeepAlive(hs: seq<Header>)
    ensures ClosesAfter(hs) <==> KEEP_ALIVE !in NormalFields(hs)
  {
    forall h | h in hs ensures AsksKeepAlive(h) <==> Normal(h) == KEEP_ALIVE {
      NormalDecides(h);
    }
  }

  /** The decision depends only on which normalised fields occur: not on their order or number, and by
      `Text.FormatIgnoresCaseAndPadding` not on letter case or surrounding spaces. */
  lemma {:induction false} KeepAliveInvariant(hs: seq<Header>, gs: seq<Header>)
    requires NormalFields(hs) == NormalFields(gs)
    ensures ClosesAfter(hs) == ClosesAfter(gs)
  {
    ClosesUnlessKeepAlive(hs);
    ClosesUnlessKeepAlive(gs);
  }
}
