/**
 * The lines of a tree file: how a file's size and path are written, and how they are read back,
 * with paths in plain text or in Base64.
 */
module TreeFiles {
  import opened Text
  import opened Word64
  import opened PathStores
  import Base64

  // ---- Reading ----

  // The characters up to the first space.
  function WordLen(s: string): (n: nat)
    ensures n <= |s|
  {
    if s == "" || IsSpace(s[0]) then 0 else 1 + WordLen(s[1..])
  }

  function TrimEnd(s: string): string {
    if s != "" && IsSpace(s[|s| - 1]) then TrimEnd(s[..|s| - 1]) else s
  }

  function Trim(s: string): string {
    TrimEnd(SkipSpaces(s))
  }

  // Text as bytes and back.
  predicate IsByteText(s: string) {
    forall i | 0 <= i < |s| :: s[i] as int < 256
  }

  function ToBytes(s: string): (b: seq<byte>)
    requires IsByteText(s)
    ensures |b| == |s|
  {
    if s == "" then [] else ToBytes(s[..|s| - 1]) + [s[|s| - 1] as int]
  }

  function FromBytes(b: seq<byte>): (s: string)
    ensures |s| == |b|
  {
    seq(|b|, i requires 0 <= i < |b| => b[i] as char)
  }

  function PathOf(s: string, isBase64: bool): string {
    if isBase64 then FromBytes(Base64.Decoded(Trim(s))) else Trim(s)
  }

  // One line: the prefix, the size, and the rest as the path. A number that does not fit, or
  // none at all, is a line without size.
  function ParseLine(line: string, isBase64: bool): TreeLine {
    var t := SkipSpaces(line);
    var n := WordLen(t);
    if t[..n] != "f" then OtherLine
    else
      var u := SkipSpaces(t[n..]);
      var minus := u != "" && u[0] == '-';
      var v := if u != "" && (u[0] == '-' || u[0] == '+') then u[1..] else u;
      var d := LeadingDigits(v);
      if d == "" || ValueOf(d) >= WORD then FileWithoutSize
      else
        FileLine(if minus then (WORD - ValueOf(d)) % WORD else ValueOf(d), PathOf(v[|d|..], isBase64))
  }

  // getline(): the characters before the first newline.
  function FirstLine(text: string): string {
    if text == "" || text[0] == '\n' then "" else [text[0]] + FirstLine(text[1..])
  }

  // ---- Writing ----

  function GenerateFileLine(path: string, size: u64): string {
    "f " + ToText(size) + " " + path + "\n"
  }

  // ---- Reading back ----

  lemma {:induction false} FirstLineOf(a: string, b: string)
    requires '\n' !in a
    ensures FirstLine(a + b) == a + FirstLine(b)
    decreases |a|
  {
    if a == "" {
      assert a + b == b;
    } else {
      assert (a + b)[0] == a[0] && (a + b)[1..] == a[1..] + b;
      FirstLineOf(a[1..], b);
    }
  }

  lemma {:induction false} DigitsThen(d: string, rest: string)
    requires AllDigits(d) && (rest == "" || !IsDigit(rest[0]))
    ensures LeadingDigits(d + rest) == d
    decreases |d|
  {
    if d == "" {
      assert d + rest == rest;
    } else {
      assert d[0] in d && (d + rest)[0] == d[0] && (d + rest)[1..] == d[1..] + rest;
      DigitsThen(d[1..], rest);
    }
  }

  // A line with any text behind the size has that text, trimmed, as its path.
  lemma LineRead(size: u64, rest: string, isBase64: bool)
    ensures ParseLine("f " + ToText(size) + " " + rest, isBase64) == FileLine(size, PathOf(" " + rest, isBase64))
  {
    hide ToText, ValueOf, PathOf, LeadingDigits;
    var d := ToText(size);
    var line := "f " + d + " " + rest;
    assert line == ['f'] + (" " + (d + (" " + rest)));
    var tail := " " + (d + (" " + rest));
    assert line[0] == 'f' && line[1..] == tail;
    assert SkipSpaces(line) == line;
    assert WordLen(line) == 1 by { assert line[1..][0] == ' '; }
    assert line[..1] == "f";
    var u := d + (" " + rest);
    assert tail[0] == ' ' && tail[1..] == u;
    assert d[0] in d && u[0] == d[0];
    assert SkipSpaces(tail) == u;
    DigitsThen(d, " " + rest);
    TextValue(size);
    assert u[|d|..] == " " + rest;
  }

  predicate OuterSpace(s: string) {
    s != "" && (IsSpace(s[0]) || IsSpace(s[|s| - 1]))
  }

  lemma {:induction false} TrimEndShortens(s: string)
    ensures |TrimEnd(s)| <= |s| && (s != "" && IsSpace(s[|s| - 1]) ==> |TrimEnd(s)| < |s|)
    ensures s != "" && !IsSpace(s[|s| - 1]) ==> TrimEnd(s) == s
    decreases |s|
  {
    if s != "" && IsSpace(s[|s| - 1]) { TrimEndShortens(s[..|s| - 1]); }
  }

  lemma TrimKeeps(s: string)
    ensures Trim(" " + s) == Trim(s)
    ensures Trim(s) == s <==> !OuterSpace(s)
    ensures |Trim(s)| <= |s|
  {
    assert (" " + s)[1..] == s;
    TrimEndShortens(SkipSpaces(s));
    TrimEndShortens(s);
    if s != "" && IsSpace(s[0]) { assert |SkipSpaces(s[1..])| < |s|; }
  }

  // A line is read back as it was written, if and only if the path has no newline and does not
  // begin or end with white space.
  lemma PlainRoundTrip(path: string, size: u64)
    ensures ParseLine(FirstLine(GenerateFileLine(path, size)), false) == FileLine(size, path)
      <==> '\n' !in path && !OuterSpace(path)
  {
    hide ParseLine, ToText, FirstLine, Trim;
    var head, shown := "f " + ToText(size) + " ", FirstLine(path + "\n");
    assert GenerateFileLine(path, size) == head + (path + "\n");
    NoNewline(size);
    FirstLineOf(head, path + "\n");
    LineRead(size, shown, false);
    TrimKeeps(shown);
    LineShown(path);
  }

  lemma NoNewline(size: u64)
    ensures '\n' !in "f " + ToText(size) + " "
  {
    hide ToText;
    assert forall c <- ToText(size) :: IsDigit(c);
  }

  lemma {:induction false} LineShown(path: string)
    ensures '\n' !in path ==> FirstLine(path + "\n") == path
    ensures '\n' in path ==> |FirstLine(path + "\n")| < |path|
    decreases |path|
  {
    if path == "" {
      assert path + "\n" == "\n";
    } else if path[0] != '\n' {
      LineShown(path[1..]);
      assert (path + "\n")[1..] == path[1..] + "\n";
      assert path == [path[0]] + path[1..];
    }
  }

  // With Base64, every path is read back, whatever characters it has.
  lemma Base64RoundTrip(path: string, size: u64)
    requires IsByteText(path)
    ensures ParseLine(FirstLine(GenerateFileLine(Base64.Encoded(ToBytes(path)), size)), true) == FileLine(size, path)
  {
    hide ParseLine, ToText, FirstLine, Trim, Base64.Encoded, Base64.Decoded;
    var text := Base64.Encoded(ToBytes(path));
    var head := "f " + ToText(size) + " ";
    assert GenerateFileLine(text, size) == head + (text + "\n");
    EncodedIsPlain(ToBytes(path));
    NoNewline(size);
    FirstLineOf(head, text + "\n");
    LineShown(text);
    LineRead(size, text, true);
    TrimKeeps(text);
    Base64.RoundTrip(ToBytes(path));
    BytesBack(path);
  }

  lemma {:induction false} BytesBack(path: string)
    requires IsByteText(path)
    ensures FromBytes(ToBytes(path)) == path
    decreases |path|
  {
    if path != "" {
      BytesBack(path[..|path| - 1]);
      assert path == path[..|path| - 1] + [path[|path| - 1]];
    }
  }

  lemma EncodedIsPlain(s: seq<byte>)
    ensures '\n' !in Base64.Encoded(s) && !OuterSpace(Base64.Encoded(s))
  {
    var d := Base64.Digits(s);
    hide Base64.Digits;
    forall c | c in Base64.Encoded(s) ensures !IsSpace(c) {
      if c in Base64.Text(d) {
        var i :| 0 <= i < |d| && c == Base64.CharOf(d[i]);
      }
    }
  }
}
