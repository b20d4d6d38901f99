/** Header fields (src/http/header.cc). */
module Headers {
  import opened Strings
  import opened Splitting

  datatype Header = Header(key: string, value: string)

  function Serialize(h: Header): string {
    h.key + COLON + h.value + CRLF
  }

  /** The parsing constructor: fewer than two colon tokens is invalid; several value tokens go through `Join`. */
  function ParseHeader(line: string): Option<Header> {
    var tokens := Split(line, COLON);
    if |tokens| < 2 then None
    else Some(Header(tokens[0], if |tokens| == 2 then tokens[1] else Join(tokens[1..])))
  }

  /** Which lines are accepted: a colon must be followed by at least one byte. */
  predicate IsHeaderLine(line: string) {
    exists i :: 0 <= i < |line| - 1 && line[i] == ':'
  }

  lemma {:induction false} ColonAt(line: string, i: nat)
    ensures At(line, COLON, i) <==> i < |line| && line[i] == ':'
  {
    if i < |line| {
      assert line[i..i + 1] == [line[i]];
    }
  }

  lemma {:induction false} FirstColon(line: string)
    ensures Find(line, COLON).Some? ==> var i := Find(line, COLON).value;
        i < |line| && line[i] == ':' && ':' !in line[..i] && COLON <= line[i..]
    ensures Find(line, COLON).None? ==> ':' !in line
  {
    OccursByte(line, ':');
    forall i: nat ensures At(line, COLON, i) <==> i < |line| && line[i] == ':' {
      ColonAt(line, i);
    }
  }

  lemma {:induction false} SplitFirstColon(line: string, i: nat)
    requires Find(line, COLON) == Some(i)
    ensures i < |line| && Split(line, COLON) == [line[..i]] + Split(line[i + 1..], COLON)
  {
    FirstColon(line);
    SplitStep(line, COLON, i);
  }

  /** Parsing in terms of the first colon: the key is what stands before it. */
  lemma {:induction false} ParseAtFirstColon(line: string, i: nat)
    requires Find(line, COLON) == Some(i)
    ensures i < |line|
    ensures ParseHeader(line).None? <==> i + 1 == |line|
    ensures i + 1 < |line| ==> Split(line[i + 1..], COLON) != []
    ensures i + 1 < |line| ==> ParseHeader(line) == Some(Header(line[..i], Join(Split(line[i + 1..], COLON))))
  {
    SplitFirstColon(line, i);
    var rest := Split(line[i + 1..], COLON);
    assert ([line[..i]] + rest)[1..] == rest;
    assert rest == [] <==> i + 1 == |line|;
  }

  /** Acceptance of a header line is exactly `IsHeaderLine`; in particular a field with an empty value is refused. */
  lemma {:induction false} HeaderLineAccepted(line: string)
    ensures ParseHeader(line).Some? <==> IsHeaderLine(line)
  {
    FirstColon(line);
    match Find(line, COLON) {
      case None =>
      case Some(i) =>
        ParseAtFirstColon(line, i);
        assert ':' !in line[..i];
        if i + 1 == |line| {
          assert forall j :: 0 <= j < i ==> line[j] == line[..i][j];
        }
    }
  }

  /** Colons, then at least one byte, none of them a colon. */
  ghost predicate ColonsThenText(v: string) {
    exists m: nat :: m < |v| && AllColons(v[..m]) && ':' !in v[m..]
  }

  /** The values that survive being written and parsed again. */
  lemma {:induction false} ValueRoundTrip(v: string)
    requires v != ""
    ensures Split(v, COLON) != []
    ensures Join(Split(v, COLON)) == v <==> ColonsThenText(v)
  {
    var ts := Split(v, COLON);
    SplitGivesTokens(v, COLON);
    SplitByteTokens(v, ':');
    JoinIsColonJoin(ts);
    if v == Intercalate(ts, COLON) + COLON {
      EndsInColon(v);
    } else {
      TextAtTheEnd(v, ts);
    }
  }

  lemma {:induction false} TextAtTheEnd(v: string, ts: seq<string>)
    requires ts != [] && v == Intercalate(ts, COLON)
    requires ts[|ts| - 1] != "" && ':' !in ts[|ts| - 1]
    ensures ColonsThenText(v) <==> |ts| == 1 || AllColons(Intercalate(ts[..|ts| - 1], COLON))
  {
    if |ts| == 1 {
      assert v[..0] == "" && v[0..] == v;
    } else {
      IntercalateLast(ts, COLON);
      ColonsBeforeText(v, Intercalate(ts[..|ts| - 1], COLON), ts[|ts| - 1]);
    }
  }

  lemma {:induction false} EndsInColon(v: string)
    requires v != "" && v[|v| - 1] == ':'
    ensures !ColonsThenText(v)
  {
    forall m: nat | m < |v| ensures ':' in v[m..] {
      assert v[m..][|v| - 1 - m] == ':';
    }
  }

  lemma {:induction false} ColonsBeforeText(v: string, x: string, last: string)
    requires v == x + COLON + last && last != "" && ':' !in last
    ensures ColonsThenText(v) <==> AllColons(x)
  {
    var k := |x| + 1;
    assert v[..k] == x + COLON && v[k..] == last;
    if AllColons(x) {
      assert AllColons(v[..k]);
    }
    forall m: nat | m < k ensures ':' in v[m..] {
      assert v[m..][k - 1 - m] == ':';
    }
    if ColonsThenText(v) {
      var m: nat :| m < |v| && AllColons(v[..m]) && ':' !in v[m..];
      assert forall i :: 0 <= i < |x| ==> x[i] == v[..m][i];
    }
  }

  /** A serialised header parses back exactly when the key has no colon and the value is colons followed by
      colon-free text. The colons of `Join` are misplaced for every other value that contains one. */
  lemma {:induction false} HeaderRoundTrip(h: Header)
    ensures ParseHeader(h.key + COLON + h.value) == Some(h) <==> ':' !in h.key && ColonsThenText(h.value)
  {
    var line := h.key + COLON + h.value;
    assert line[|h.key|] == ':';
    FirstColon(line);
    var i := Find(line, COLON).value;
    ParseAtFirstColon(line, i);
    assert ':' !in line[..i];
    if i < |h.key| {
      assert line[i] == h.key[i];
      if i + 1 < |line| {
        assert |line[..i]| != |h.key|;
      }
    } else {
      ColonAt(line, |h.key|);
      assert line[..i] == h.key && line[i + 1..] == h.value;
      if h.value != "" {
        ValueRoundTrip(h.value);
      }
    }
  }

  /** An address with a port is the everyday value that does not survive: `a:8` is stored as `:a8`. */
  lemma {:induction false} HostWithPortIsCorrupted(key: string, host: string, port: string)
    requires ':' !in key && ':' !in host && ':' !in port && port != ""
    ensures ParseHeader(key + COLON + (host + COLON + port)) == Some(Header(key, COLON + host + port))
  {
    var value := host + COLON + port;
    SplitAtColon(key, value);
    SplitAtColon(host, port);
    OccursByte(port, ':');
    assert Split(port, COLON) == [port];
    ParseAtFirstColon(key + COLON + value, |key|);
    assert Split(value, COLON) == [host, port];
    JoinTwo(host, port);
  }

  lemma {:induction false} JoinTwo(a: string, b: string)
    ensures Join([a, b]) == COLON + a + b
  {
    var ts := [a, b];
    assert JoinFrom(ts, 2) == "";
    assert JoinFrom(ts, 1) == b;
  }

  lemma {:induction false} SplitAtColon(a: string, b: string)
    requires ':' !in a
    ensures var line := a + COLON + b;
      && Find(line, COLON) == Some(|a|)
      && line[..|a|] == a && line[|a| + 1..] == b
      && Split(line, COLON) == [a] + Split(b, COLON)
  {
    var line := a + COLON + b;
    assert line[..|a|] == a && line[|a| + 1..] == b;
    ColonFirstAt(line, |a|);
    SplitFirstColon(line, |a|);
  }

  lemma {:induction false} ColonFirstAt(line: string, i: nat)
    requires i < |line| && line[i] == ':' && ':' !in line[..i]
    ensures Find(line, COLON) == Some(i)
  {
    forall j: nat | j < i ensures !At(line, COLON, j) {
      ColonAt(line, j);
      assert line[..i][j] == line[j];
    }
    ColonAt(line, i);
    FindIs(line, COLON, i);
  }
}
