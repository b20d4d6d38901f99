/** Normalisation of tokens (src/http/http_utils.cc): trimming spaces, upper-casing, and the enumerations
    recognised after both. */
module Text {
  import opened Strings

  /** Index of the first byte that is not a space. */
  function FirstNonSpace(s: string, from: nat): (r: nat)
    requires from <= |s|
    ensures from <= r <= |s|
    ensures forall i :: from <= i < r ==> s[i] == ' '
    ensures r < |s| ==> s[r] != ' '
    decreases |s| - from
  {
    if from == |s| || s[from] != ' ' then from else FirstNonSpace(s, from + 1)
  }

  /** One past the index of the last byte before `to` that is not a space. */
  function LastNonSpace(s: string, to: nat): (r: nat)
    requires to <= |s|
    ensures r <= to
    ensures forall i :: r <= i < to ==> s[i] == ' '
    ensures r > 0 ==> s[r - 1] != ' '
  {
    if to == 0 || s[to - 1] != ' ' then to else LastNonSpace(s, to - 1)
  }

  function Trim(s: string): string {
    var first, last := FirstNonSpace(s, 0), LastNonSpace(s, |s|);
    if last == 0 then "" else s[first..last]
  }

  predicate AllSpaces(s: string) {
    forall i :: 0 <= i < |s| ==> s[i] == ' '
  }

  /** The word has no space at either end. */
  predicate Tight(w: string) {
    w == "" || (w[0] != ' ' && w[|w| - 1] != ' ')
  }

  lemma {:induction false} TrimRemoves(s: string) returns (a: string, b: string)
    ensures AllSpaces(a) && AllSpaces(b) && Tight(Trim(s)) && s == a + Trim(s) + b
  {
    var first, last := FirstNonSpace(s, 0), LastNonSpace(s, |s|);
    if last == 0 {
      a, b := s, "";
    } else {
      assert first < last;
      a, b := s[..first], s[last..];
      assert Trim(s) == s[first..last];
    }
  }

  /** Trimming is exactly the removal of outer spaces: the result is the one tight word that gives the input back
      when spaces are put around it. */
  lemma {:induction false} TrimCharacterised(s: string, w: string)
    ensures Trim(s) == w <==> Tight(w) && exists a, b :: AllSpaces(a) && AllSpaces(b) && s == a + w + b
  {
    var _, _ := TrimRemoves(s);
    if Tight(w) && exists a, b :: AllSpaces(a) && AllSpaces(b) && s == a + w + b {
      var a, b :| AllSpaces(a) && AllSpaces(b) && s == a + w + b;
      TrimPadded(a, w, b);
    }
  }

  lemma {:induction false} TrimPadded(a: string, w: string, b: string)
    requires AllSpaces(a) && AllSpaces(b) && Tight(w)
    ensures Trim(a + w + b) == w
  {
    var s := a + w + b;
    var first, last := FirstNonSpace(s, 0), LastNonSpace(s, |s|);
    if w != "" {
      assert s[|a|] == w[0] && s[|a| + |w| - 1] == w[|w| - 1];
      assert first == |a|;
      assert last == |a| + |w|;
    }
  }

  /** Spaces around a string never change what trimming gives. */
  lemma {:induction false} TrimIgnoresPadding(a: string, s: string, b: string)
    requires AllSpaces(a) && AllSpaces(b)
    ensures Trim(a + s + b) == Trim(s)
  {
    var a', b' := TrimRemoves(s);
    Regroup(a, a', Trim(s), b', b);
    TrimPadded(a + a', Trim(s), b' + b);
  }

  lemma {:induction false} Regroup(a: string, a': string, w: string, b': string, b: string)
    ensures a + (a' + w + b') + b == (a + a') + w + (b' + b)
  {
  }

  /** `toupper` of the C locale. */
  function Upper(c: char): char {
    if 'a' <= c <= 'z' then c - 'a' + 'A' else c
  }

  function ToUpper(s: string): (r: string)
    ensures |r| == |s| && forall i :: 0 <= i < |s| ==> r[i] == Upper(s[i])
  {
    seq(|s|, i requires 0 <= i < |s| => Upper(s[i]))
  }

  function Format(s: string): string {
    ToUpper(Trim(s))
  }

  /** The same byte, or the two cases of one letter. */
  predicate SameLetter(c: char, d: char) {
    || c == d
    || ('a' <= c <= 'z' && 'A' <= d <= 'Z' && c - 'a' == d - 'A')
    || ('a' <= d <= 'z' && 'A' <= c <= 'Z' && d - 'a' == c - 'A')
  }

  /** The same word up to letter case. */
  predicate SameLetters(s: string, t: string) {
    |s| == |t| && forall i :: 0 <= i < |s| ==> SameLetter(s[i], t[i])
  }

  /** `Upper` takes each small letter to its capital and changes nothing else. */
  lemma {:induction false} UpperIsCapital(c: char)
    ensures 'a' <= c <= 'z' ==> 'A' <= Upper(c) <= 'Z' && Upper(c) - 'A' == c - 'a'
    ensures !('a' <= c <= 'z') ==> Upper(c) == c
  {
  }

  lemma {:induction false} SameUpper(c: char, d: char)
    ensures Upper(c) == Upper(d) <==> SameLetter(c, d)
  {
  }

  /** Upper-casing makes words equal exactly when they are the same up to letter case. */
  lemma {:induction false} ToUpperSameLetters(s: string, t: string)
    ensures ToUpper(s) == ToUpper(t) <==> SameLetters(s, t)
  {
    if |s| == |t| {
      forall i | 0 <= i < |s| ensures ToUpper(s)[i] == ToUpper(t)[i] <==> SameLetter(s[i], t[i]) {
        SameUpper(s[i], t[i]);
      }
    } else {
      assert |ToUpper(s)| != |ToUpper(t)|;
    }
  }

  lemma {:induction false} AlphabetToUpper()
    ensures ToUpper("abcdefghijklmnopqrstuvwxyz") == "ABCDEFGHIJKLMNOPQRSTUVWXYZ"
  {
  }

  /** `w` up to letter case, with spaces around it. */
  ghost predicate Spells(s: string, w: string) {
    exists a, v, b :: AllSpaces(a) && AllSpaces(b) && s == a + v + b && SameLetters(w, v)
  }

  lemma {:induction false} TightAlike(w: string, v: string)
    requires SameLetters(w, v) && Tight(w)
    ensures Tight(v)
  {
    if w != "" {
      assert SameLetter(w[0], v[0]) && SameLetter(w[|w| - 1], v[|v| - 1]);
    }
  }

  /** Formatting recognises a word exactly in any letter case and with any spaces around it. */
  lemma {:induction false} FormatRecognises(s: string, w: string)
    requires Tight(w)
    ensures Format(s) == Format(w) <==> Spells(s, w)
  {
    assert "" + w + "" == w;
    TrimPadded("", w, "");
    if Format(s) == Format(w) {
      var a, b := TrimRemoves(s);
      ToUpperSameLetters(w, Trim(s));
      assert AllSpaces(a) && AllSpaces(b) && s == a + Trim(s) + b && SameLetters(w, Trim(s));
    }
    if Spells(s, w) {
      var a, v, b :| AllSpaces(a) && AllSpaces(b) && s == a + v + b && SameLetters(w, v);
      TightAlike(w, v);
      TrimPadded(a, v, b);
      ToUpperSameLetters(w, v);
    }
  }

  lemma {:induction false} FormatCapital(w: string)
    requires Tight(w) && forall c :: c in w ==> !('a' <= c <= 'z')
    ensures Format(w) == w
  {
    assert "" + w + "" == w;
    TrimPadded("", w, "");
    assert forall i :: 0 <= i < |w| ==> w[i] in w;
  }

  /** `Format` sees neither letter case nor surrounding spaces. */
  lemma {:induction false} FormatIgnoresCaseAndPadding(s: string, t: string, a: string, b: string)
    requires SameLetters(s, t) && AllSpaces(a) && AllSpaces(b)
    ensures Format(a + t + b) == Format(s)
  {
    TrimIgnoresPadding(a, t, b);
    FormatIgnoresCase(s, t);
  }

  lemma {:induction false} SlicesAlike(s: string, t: string, i: nat, j: nat)
    requires SameLetters(s, t) && i <= j <= |s|
    ensures SameLetters(s[i..j], t[i..j])
  {
    forall k | 0 <= k < j - i ensures SameLetter(s[i..j][k], t[i..j][k]) {
      assert SameLetter(s[i + k], t[i + k]);
    }
  }

  lemma {:induction false} SpacesAlike(a: string, t: string)
    requires SameLetters(a, t) && AllSpaces(a)
    ensures AllSpaces(t)
  {
    forall k | 0 <= k < |t| ensures t[k] == ' ' {
      assert SameLetter(a[k], t[k]);
    }
  }

  lemma {:induction false} PiecesAlike(a: string, w: string, b: string, t: string)
      returns (a': string, v: string, b': string)
    requires SameLetters(a + w + b, t)
    ensures t == a' + v + b' && SameLetters(a, a') && SameLetters(w, v) && SameLetters(b, b')
  {
    var s, i, j := a + w + b, |a|, |a| + |w|;
    SlicesAlike(s, t, 0, i);
    SlicesAlike(s, t, i, j);
    SlicesAlike(s, t, j, |s|);
    assert s[0..i] == a && s[i..j] == w && s[j..|s|] == b;
    a', v, b' := t[0..i], t[i..j], t[j..|s|];
  }

  lemma {:induction false} FormatIgnoresCase(s: string, t: string)
    requires SameLetters(s, t)
    ensures Format(t) == Format(s)
  {
    var a, b := TrimRemoves(s);
    var a', v, b' := PiecesAlike(a, Trim(s), b, t);
    SpacesAlike(a, a');
    SpacesAlike(b, b');
    TightAlike(Trim(s), v);
    TrimPadded(a', v, b');
    ToUpperSameLetters(Trim(s), v);
  }

  lemma {:induction false} TrimSpaceFree(s: string)
    requires ' ' !in s
    ensures Trim(s) == s
  {
    assert "" + s + "" == s;
    TrimPadded("", s, "");
  }

  datatype Method = GET | HEAD | UNSUPPORTED_METHOD
  datatype Version = HTTP_1_1 | UNSUPPORTED_VERSION

  function ToMethod(s: string): Method {
    var m := Format(s);
    if m == "GET" then GET else if m == "HEAD" then HEAD else UNSUPPORTED_METHOD
  }

  function ToVersion(s: string): Version {
    if Format(s) == "HTTP/1.1" then HTTP_1_1 else UNSUPPORTED_VERSION
  }

  lemma {:induction false} Recognises(s: string, w: string)
    requires Tight(w) && forall c :: c in w ==> !('a' <= c <= 'z')
    ensures Format(s) == w <==> Spells(s, w)
  {
    FormatRecognises(s, w);
    FormatCapital(w);
  }

  /** The methods and the version that are supported. */
  lemma {:induction false} MethodsAndVersion(s: string)
    ensures ToMethod(s) == GET <==> Spells(s, "GET")
    ensures ToMethod(s) == HEAD <==> Spells(s, "HEAD")
    ensures ToVersion(s) == HTTP_1_1 <==> Spells(s, "HTTP/1.1")
  {
    Recognises(s, "GET");
    Recognises(s, "HEAD");
    Recognises(s, "HTTP/1.1");
  }

  datatype Extension = HTML | CSS | PNG | JPG | JPEG | GIF | OCTET

  function ToExtension(s: string): Extension {
    var e := Format(s);
    if e == "HTML" then HTML
    else if e == "CSS" then CSS
    else if e == "PNG" then PNG
    else if e == "JPG" then JPG
    else if e == "JPEG" then JPEG
    else if e == "GIF" then GIF
    else OCTET
  }

  function ExtensionToMime(e: Extension): string {
    match e
    case HTML => "text/html"
    case CSS => "text/css"
    case PNG => "image/png"
    case JPG => "image/jpg"
    case JPEG => "image/jpeg"
    case GIF => "image/gif"
    case OCTET => "application/octet-stream"
  }

  /** The MIME type of a file name extension. */
  ghost predicate IsMimeOf(extension: string, mime: string) {
    if Spells(extension, "HTML") then mime == "text/html"
    else if Spells(extension, "CSS") then mime == "text/css"
    else if Spells(extension, "PNG") then mime == "image/png"
    else if Spells(extension, "JPG") then mime == "image/jpg"
    else if Spells(extension, "JPEG") then mime == "image/jpeg"
    else if Spells(extension, "GIF") then mime == "image/gif"
    else mime == "application/octet-stream"
  }

  lemma {:induction false} MimeOfExtension(extension: string)
    ensures IsMimeOf(extension, ExtensionToMime(ToExtension(extension)))
  {
    Recognises(extension, "HTML");
    Recognises(extension, "CSS");
    Recognises(extension, "PNG");
    Recognises(extension, "JPG");
    Recognises(extension, "JPEG");
    Recognises(extension, "GIF");
  }

  /** `std::to_string` of a size. */
  function Decimal(n: nat): (r: string)
    ensures r != "" && forall c :: c in r ==> '0' <= c <= '9'
  {
    var digit := '0' + (n % 10) as char;
    if n < 10 then [digit] else Decimal(n / 10) + [digit]
  }

  /** Reading digits back. */
  function ParseDecimal(s: string): Option<nat> {
    if s == "" then None
    else
      var c := s[|s| - 1];
      if !('0' <= c <= '9') then None
      else
        var d := (c - '0') as nat;
        if |s| == 1 then Some(d)
        else match ParseDecimal(s[..|s| - 1])
          case None => None
          case Some(v) => Some(10 * v + d)
  }

  lemma {:induction false} DecimalRoundTrip(n: nat)
    ensures ParseDecimal(Decimal(n)) == Some(n)
  {
    var s := Decimal(n);
    var digit := '0' + (n % 10) as char;
    assert (digit - '0') as nat == n % 10;
    if n < 10 {
      assert s == [digit];
    } else {
      DecimalRoundTrip(n / 10);
      assert s[..|s| - 1] == Decimal(n / 10);
    }
  }

  /** The digits printed, from the last one on. */
  lemma {:induction false} DecimalDigits(n: nat, d: nat)
    requires d < 10
    ensures Decimal(d) == ["0123456789"[d]]
    ensures n > 0 ==> Decimal(10 * n + d) == Decimal(n) + ["0123456789"[d]]
  {
    assert '0' + d as char == "0123456789"[d];
    assert (10 * n + d) / 10 == n && (10 * n + d) % 10 == d;
  }
}
