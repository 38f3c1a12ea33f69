/**
 * Decimal numbers as text, and splitting text at delimiter characters where adjacent delimiters
 * count as one.
 */
module Text {

  // ---- Decimal numbers ----

  predicate IsDigit(c: char) {
    '0' <= c <= '9'
  }

  function DigitChar(d: nat): (c: char)
    requires d < 10
    ensures IsDigit(c) && (c == '0' <==> d == 0)
  {
    '0' + d as char
  }

  function DigitValue(c: char): nat
    requires IsDigit(c)
  {
    c as int - '0' as int
  }

  predicate AllDigits(s: string) {
    forall c <- s :: IsDigit(c)
  }

  function ToText(n: nat): (s: string)
    ensures |s| > 0 && AllDigits(s)
  {
    if n < 10 then [DigitChar(n)] else ToText(n / 10) + [DigitChar(n % 10)]
  }

  function ValueOf(s: string): nat
    requires AllDigits(s)
  {
    if s == "" then 0 else ValueOf(s[..|s| - 1]) * 10 + DigitValue(s[|s| - 1])
  }

  // Reading back the text of a number gives the number; only zero starts with a zero.
  lemma {:induction false} TextValue(n: nat)
    ensures ValueOf(ToText(n)) == n && (ToText(n)[0] == '0' <==> n == 0)
  {
    if n < 10 {
      assert ToText(n)[..0] == "";
    } else {
      TextValue(n / 10);
      var head := ToText(n / 10);
      assert ToText(n)[..|head|] == head;
    }
  }

  lemma {:induction false} LongerText(a: nat, b: nat)
    requires a <= b
    ensures |ToText(a)| <= |ToText(b)|
    decreases a
  {
    if a >= 10 { LongerText(a / 10, b / 10); }
  }

  function StripZeros(s: string): (t: string)
    requires AllDigits(s)
    ensures AllDigits(t)
  {
    if s != "" && s[0] == '0' then StripZeros(s[1..]) else s
  }

  lemma {:induction false} ConsValue(c: char, s: string)
    requires c == '0' && AllDigits(s)
    ensures ValueOf([c] + s) == ValueOf(s)
    decreases |s|
  {
    var t := [c] + s;
    if s == "" {
      assert t[..0] == "";
    } else {
      ConsValue(c, s[..|s| - 1]);
      assert t[..|t| - 1] == [c] + s[..|s| - 1];
    }
  }

  lemma {:induction false} StripKeepsValue(s: string)
    requires AllDigits(s)
    ensures ValueOf(StripZeros(s)) == ValueOf(s)
  {
    if s != "" && s[0] == '0' {
      StripKeepsValue(s[1..]);
      ConsValue(s[0], s[1..]);
      assert s == [s[0]] + s[1..];
    }
  }

  // ---- Splitting ----

  predicate Free(s: string, delims: string) {
    forall c <- s :: c !in delims
  }

  // The number of characters before the first delimiter.
  function TokenLen(s: string, delims: string): (n: nat)
    ensures n <= |s| && Free(s[..n], delims) && (n < |s| ==> s[n] in delims)
  {
    if s == "" || s[0] in delims then 0
    else
      var n := 1 + TokenLen(s[1..], delims);
      assert s[..n] == [s[0]] + s[1..][..n - 1];
      n
  }

  function SkipDelims(s: string, delims: string): (t: string)
    ensures |t| <= |s|
  {
    if s != "" && s[0] in delims then SkipDelims(s[1..], delims) else s
  }

  function Split(s: string, delims: string): (tokens: seq<string>)
    ensures |tokens| > 0 && forall t <- tokens :: Free(t, delims)
    decreases |s|
  {
    var n := TokenLen(s, delims);
    if n == |s| then
      assert s[..n] == s;
      [s]
    else [s[..n]] + Split(SkipDelims(s[n + 1..], delims), delims)
  }

  function Join(tokens: seq<string>, sep: char): string
    requires tokens != []
  {
    if |tokens| == 1 then tokens[0] else tokens[0] + [sep] + Join(tokens[1..], sep)
  }

  predicate Words(tokens: seq<string>, delims: string) {
    forall t <- tokens :: t != "" && Free(t, delims)
  }

  lemma {:induction false} TokenLenOf(t: string, rest: string, delims: string)
    requires Free(t, delims) && (rest == "" || rest[0] in delims)
    ensures TokenLen(t + rest, delims) == |t|
    decreases |t|
  {
    if t == "" {
      assert t + rest == rest;
    } else {
      assert t[0] in t && (t + rest)[1..] == t[1..] + rest;
      TokenLenOf(t[1..], rest, delims);
    }
  }

  lemma JoinStart(tokens: seq<string>, sep: char, delims: string)
    requires tokens != [] && Words(tokens, delims)
    ensures Join(tokens, sep) != "" && Join(tokens, sep)[0] !in delims
  {
    assert tokens[0] in tokens;
    assert tokens[0][0] in tokens[0];
  }

  lemma {:induction false} DelimsSkipped(run: string, rest: string, delims: string)
    requires (forall c <- run :: c in delims) && (rest == "" || rest[0] !in delims)
    ensures SkipDelims(run + rest, delims) == rest
    decreases |run|
  {
    if run == "" {
      assert run + rest == rest;
    } else {
      assert run[0] in run && (run + rest)[1..] == run[1..] + rest;
      DelimsSkipped(run[1..], rest, delims);
    }
  }

  // A whole run of delimiters ends one token.
  lemma SplitRun(t: string, run: string, rest: string, delims: string)
    requires Free(t, delims) && run != "" && (forall c <- run :: c in delims) && (rest == "" || rest[0] !in delims)
    ensures Split(t + run + rest, delims) == [t] + Split(rest, delims)
  {
    hide TokenLen, SkipDelims, Free;
    var s := t + run + rest;
    assert s == t + (run + rest) && (run + rest)[0] == run[0] && run[0] in run;
    TokenLenOf(t, run + rest, delims);
    assert s[..|t|] == t && s[|t| + 1..] == run[1..] + rest;
    DelimsSkipped(run[1..], rest, delims);
  }

  lemma SplitFirst(t: string, sep: char, rest: string, delims: string)
    requires Free(t, delims) && sep in delims && rest != "" && rest[0] !in delims
    ensures Split(t + [sep] + rest, delims) == [t] + Split(rest, delims)
  {
    SplitRun(t, [sep], rest, delims);
  }

  // Splitting joined words gives back the words.
  lemma {:induction false} SplitJoin(tokens: seq<string>, sep: char, delims: string)
    requires tokens != [] && Words(tokens, delims) && sep in delims
    ensures Split(Join(tokens, sep), delims) == tokens
    decreases |tokens|
  {
    hide Split, Free;
    assert tokens[0] in tokens;
    if |tokens| == 1 {
      SplitOne(tokens[0], delims);
    } else {
      assert Words(tokens[1..], delims);
      JoinStart(tokens[1..], sep, delims);
      SplitFirst(tokens[0], sep, Join(tokens[1..], sep), delims);
      SplitJoin(tokens[1..], sep, delims);
    }
  }

  lemma SplitOne(s: string, delims: string)
    requires Free(s, delims)
    ensures Split(s, delims) == [s]
  {
    assert s + "" == s;
    TokenLenOf(s, "", delims);
  }

  lemma {:induction false} JoinSnoc(tokens: seq<string>, t: string, sep: char)
    requires tokens != []
    ensures Join(tokens + [t], sep) == Join(tokens, sep) + [sep] + t
    decreases |tokens|
  {
    if |tokens| == 1 {
      assert (tokens + [t])[1..] == [t];
    } else {
      assert (tokens + [t])[1..] == tokens[1..] + [t];
      JoinSnoc(tokens[1..], t, sep);
    }
  }

  // ---- Reading from the start of a text ----

  predicate IsSpace(c: char) {
    c == ' ' || '\t' <= c <= '\r'
  }

  function SkipSpaces(s: string): (t: string)
    ensures |t| <= |s| && (t != "" ==> !IsSpace(t[0]))
  {
    if s != "" && IsSpace(s[0]) then SkipSpaces(s[1..]) else s
  }

  // The digits at the start; what follows them is ignored.
  function LeadingDigits(s: string): (d: string)
    ensures AllDigits(d) && |d| <= |s|
  {
    if s != "" && IsDigit(s[0]) then [s[0]] + LeadingDigits(s[1..]) else ""
  }

  lemma {:induction false} DigitsLeadText(s: string, rest: string)
    requires AllDigits(s) && (rest == "" || !IsDigit(rest[0]))
    ensures LeadingDigits(s + rest) == s
    decreases |s|
  {
    if s == "" {
      assert s + rest == rest;
    } else {
      assert s[0] in s && s == [s[0]] + s[1..] && (s + rest)[1..] == s[1..] + rest;
      DigitsLeadText(s[1..], rest);
    }
  }

  lemma DigitsLead(s: string)
    requires AllDigits(s)
    ensures LeadingDigits(s) == s
  {
    assert s + "" == s;
    DigitsLeadText(s, "");
  }
}
