/**
 * Laws of the bracket lists: the expander undoes the printer, and splitting a comma-joined list
 * expands each of its specs.
 */
module BracketLaws {
  import opened Options
  import opened Text
  import opened Brackets

  // ---- The contents ----

  function Texts(v: seq<nat>): (t: seq<string>)
    ensures |t| == |v|
  {
    seq(|v|, i requires 0 <= i < |v| => ToText(v[i]))
  }

  function Upto(first: nat, last: nat): seq<nat>
    decreases last + 1 - first
  {
    if first > last then [] else [first] + Upto(first + 1, last)
  }

  // The numbers of a list of runs.
  function Flat(r: seq<(nat, nat)>): seq<nat> {
    if r == [] then [] else Flat(r[..|r| - 1]) + Upto(r[|r| - 1].0, r[|r| - 1].1)
  }

  lemma {:induction false} UptoSnoc(first: nat, last: nat)
    requires first <= last
    ensures Upto(first, last + 1) == Upto(first, last) + [last + 1]
    decreases last - first
  {
    if first < last {
      UptoSnoc(first + 1, last);
    } else {
      assert Upto(first, last) == [first] && Upto(last + 1, last + 1) == [last + 1];
    }
  }

  predicate RunsOk(r: seq<(nat, nat)>) {
    forall run <- r :: run.0 <= run.1 < INT_MAX
  }

  // The runs of a list hold its numbers, in order.
  lemma {:induction false} RunsFlat(v: seq<nat>)
    requires v != [] && forall x <- v :: x < INT_MAX
    ensures Flat(Runs(v)) == v && RunsOk(Runs(v))
    decreases |v|
  {
    var x := v[|v| - 1];
    assert x in v;
    if |v| == 1 {
      assert Runs(v) == [(x, x)] && [(x, x)][..0] == [] && v == [x] && Upto(x, x) == [x];
      assert Flat([(x, x)]) == [] + [x];
    } else {
      hide Runs, Flat;
      var init := v[..|v| - 1];
      assert v == init + [x] && forall y <- init :: y in v;
      RunsFlat(init);
      RunsFlatStep(init, x);
    }
  }

  lemma RunsFlatStep(init: seq<nat>, x: nat)
    requires init != [] && x < INT_MAX && Flat(Runs(init)) == init && RunsOk(Runs(init))
    ensures Flat(Runs(init + [x])) == init + [x] && RunsOk(Runs(init + [x]))
  {
    hide Runs, Flat, Upto, RunsOk;
    var r := Runs(init);
    var done, run := r[..|r| - 1], r[|r| - 1];
    assert r == done + [run];
    RunsLast(init, x);
    RunsOkParts(done, run);
    FlatSnoc(done, run);
    if x == run.1 + 1 {
      UptoSnoc(run.0, run.1);
      FlatSnoc(done, (run.0, x));
      RunsOkParts(done, (run.0, x));
    } else {
      FlatSnoc(r, (x, x));
      UptoOne(x);
      RunsOkParts(r, (x, x));
    }
  }

  predicate Separate(r: seq<(nat, nat)>) {
    forall i | 0 <= i < |r| - 1 :: r[i].1 + 1 != r[i + 1].0
  }

  // No two runs could be one.
  lemma {:induction false} RunsMaximal(v: seq<nat>)
    requires v != []
    ensures Separate(Runs(v))
    decreases |v|
  {
    hide Runs, Separate;
    if |v| == 1 {
      OneRun(v);
    } else {
      var init, x := v[..|v| - 1], v[|v| - 1];
      assert init + [x] == v;
      RunsMaximal(init);
      RunsLast(init, x);
      RunStarts(Runs(init), x);
    }
  }

  lemma OneRun(v: seq<nat>)
    requires |v| == 1
    ensures Separate(Runs(v))
  {
  }

  lemma RunStarts(r: seq<(nat, nat)>, x: nat)
    requires r != [] && Separate(r)
    ensures Separate(r[..|r| - 1] + [(r[|r| - 1].0, x)])
    ensures x != r[|r| - 1].1 + 1 ==> Separate(r + [(x, x)])
  {
  }

  lemma UptoOne(x: nat)
    ensures Upto(x, x) == [x]
  {
  }

  lemma RunsOkParts(r: seq<(nat, nat)>, run: (nat, nat))
    ensures RunsOk(r + [run]) <==> RunsOk(r) && run.0 <= run.1 < INT_MAX
  {
    assert (r + [run])[|r|] == run;
    assert forall x <- r :: x in r + [run];
  }

  lemma RunsLast(init: seq<nat>, x: nat)
    requires init != []
    ensures var r := Runs(init); var run := r[|r| - 1];
      Runs(init + [x]) == if x == run.1 + 1 then r[..|r| - 1] + [(run.0, x)] else r + [(x, x)]
  {
    assert (init + [x])[..|init|] == init;
  }

  lemma FlatSnoc(r: seq<(nat, nat)>, run: (nat, nat))
    ensures Flat(r + [run]) == Flat(r) + Upto(run.0, run.1)
  {
    assert (r + [run])[..|r|] == r;
  }

  // ---- Numbers with leading zeros ----

  function Max(a: nat, b: nat): nat {
    if a < b then b else a
  }

  lemma {:induction false} ZerosBefore(k: nat, t: string)
    requires AllDigits(t)
    ensures AllDigits(Zeros(k) + t) && ValueOf(Zeros(k) + t) == ValueOf(t)
    decreases k
  {
    hide ValueOf;
    if k == 0 {
      assert Zeros(0) + t == t;
    } else {
      ZerosBefore(k - 1, t);
      assert Zeros(k) + t == ['0'] + (Zeros(k - 1) + t);
      ConsValue('0', Zeros(k - 1) + t);
    }
  }

  // Filling up keeps the number and gives at least the length.
  lemma FilledIs(n: nat, len: nat)
    ensures AllDigits(Filled(n, len)) && ValueOf(Filled(n, len)) == n && |Filled(n, len)| == Max(len, |ToText(n)|)
  {
    hide ToText, ValueOf;
    TextValue(n);
    var t := ToText(n);
    if |t| < len { ZerosBefore(len - |t|, t); }
  }

  lemma {:induction false} RangeAt(first: nat, last: nat, len: nat, i: nat)
    requires first <= last && i <= last - first
    ensures |RangeTexts(first, last, len)| == last - first + 1
    ensures RangeTexts(first, last, len)[i] == Filled(first + i, len)
    decreases last - first
  {
    hide Filled;
    if first < last {
      RangeAt(first + 1, last, len, if i > 0 then i - 1 else 0);
    }
  }

  lemma DigitsNumber(a: string)
    requires a != "" && AllDigits(a) && ValueOf(a) < INT_MAX
    ensures RangeNumber(a) == Some(ValueOf(a))
    ensures Free(a, "-") && Free(a, ",") && '-' !in a
  {
    hide ValueOf, StripZeros;
    StripKeepsValue(a);
    if StripZeros(a) == "" { ValueOfNothing(); }
    assert !IsDigit('-') && !IsDigit(',');
  }

  lemma ValueOfNothing()
    ensures ValueOf("") == 0
  {
  }

  lemma PairJoined(a: string, b: string)
    ensures Join([a, b], '-') == a + "-" + b
  {
    assert [a, b][1..] == [b];
  }

  lemma PairExpands(a: string, b: string)
    requires a != "" && b != "" && AllDigits(a) && AllDigits(b) && ValueOf(a) < INT_MAX && ValueOf(b) < INT_MAX
    ensures ExpandElement(a + "-" + b) == Some(RangeTexts(ValueOf(a), ValueOf(b), |a|))
  {
    hide ValueOf, Split, RangeNumber, RangeTexts;
    DigitsNumber(a);
    DigitsNumber(b);
    var s := a + "-" + b;
    assert '-' in s by { assert s[|a|] == '-'; }
    SplitJoin([a, b], '-', "-");
    PairJoined(a, b);
  }

  // A range of two digit texts expands to the texts of all its numbers in order, each at least as
  // long as the first text, which may have leading zeros.
  lemma RangeExpands(a: string, b: string)
    requires a != "" && b != "" && AllDigits(a) && AllDigits(b) && ValueOf(a) <= ValueOf(b) < INT_MAX
    ensures var texts := ExpandElement(a + "-" + b);
      && texts.Some? && |texts.value| == ValueOf(b) - ValueOf(a) + 1
      && forall i | 0 <= i < |texts.value| ::
           && AllDigits(texts.value[i]) && ValueOf(texts.value[i]) == ValueOf(a) + i
           && |texts.value[i]| == Max(|a|, |ToText(ValueOf(a) + i)|)
  {
    hide ValueOf, ToText, ExpandElement, RangeTexts, Filled;
    PairExpands(a, b);
    var first, last := ValueOf(a), ValueOf(b);
    var texts := RangeTexts(first, last, |a|);
    RangeAt(first, last, |a|, 0);
    forall i | 0 <= i < |texts|
      ensures AllDigits(texts[i]) && ValueOf(texts[i]) == first + i && |texts[i]| == Max(|a|, |ToText(first + i)|)
    {
      RangeAt(first, last, |a|, i);
      FilledIs(first + i, |a|);
    }
  }

  lemma LastDigit(s: string)
    requires AllDigits(s) && s != ""
    ensures ValueOf(s) / 10 == ValueOf(s[..|s| - 1]) && ValueOf(s) % 10 == DigitValue(s[|s| - 1])
  {
    var h, c := ValueOf(s[..|s| - 1]), s[|s| - 1];
    assert c in s && DigitValue(c) < 10;
    assert ValueOf(s) == h * 10 + DigitValue(c);
  }

  // A digit text is determined by its value and its length, so these say which texts they are.
  lemma {:induction false} SameDigits(s: string, t: string)
    requires AllDigits(s) && AllDigits(t) && |s| == |t| && ValueOf(s) == ValueOf(t)
    ensures s == t
    decreases |s|
  {
    hide ValueOf;
    if s != "" {
      var n := |s| - 1;
      LastDigit(s);
      LastDigit(t);
      SameDigits(s[..n], t[..n]);
      assert s == s[..n] + [s[n]] && t == t[..n] + [t[n]];
    }
  }

  // ---- Lists printed with a width ----

  // A list is printed with leading zeros up to a width; width 0 is the plain printer.
  function Padded(v: seq<nat>, width: nat): (t: seq<string>)
    ensures |t| == |v|
  {
    seq(|v|, i requires 0 <= i < |v| => Filled(v[i], width))
  }

  function PaddedRun(run: (nat, nat), width: nat): string {
    if run.0 == run.1 then Filled(run.0, width) else Filled(run.0, width) + "-" + Filled(run.1, width)
  }

  function PaddedRuns(r: seq<(nat, nat)>, width: nat): (t: seq<string>)
    ensures |t| == |r|
  {
    seq(|r|, i requires 0 <= i < |r| => PaddedRun(r[i], width))
  }

  function PaddedHuman(v: seq<nat>, width: nat): string
    requires v != []
  {
    Join(PaddedRuns(Runs(v), width), ',')
  }

  lemma PlainIsPadded(v: seq<nat>)
    requires v != []
    ensures PaddedHuman(v, 0) == Human(v) && Padded(v, 0) == Texts(v)
  {
    hide ToText, Runs, Join;
    assert PaddedRuns(Runs(v), 0) == RunTexts(Runs(v));
  }

  lemma PaddedConcat(a: seq<nat>, b: seq<nat>, width: nat)
    ensures Padded(a + b, width) == Padded(a, width) + Padded(b, width)
  {
  }

  // No later number is shorter than the first, so filling to the length of the first text is
  // filling to the width.
  lemma {:induction false} RangeIsPadded(first: nat, last: nat, len: nat, width: nat)
    requires first > last || len == width || width <= len <= |ToText(first)|
    ensures RangeTexts(first, last, len) == Padded(Upto(first, last), width)
    decreases last + 1 - first
  {
    hide ToText;
    if first <= last {
      LongerText(first, first + 1);
      RangeIsPadded(first + 1, last, len, width);
      assert Filled(first, len) == Filled(first, width);
      hide Filled;
      PaddedConcat([first], Upto(first + 1, last), width);
      assert Padded([first], width) == [Filled(first, width)];
    }
  }

  lemma RunExpands(run: (nat, nat), width: nat)
    requires run.0 <= run.1 < INT_MAX
    ensures ExpandElement(PaddedRun(run, width)) == Some(Padded(Upto(run.0, run.1), width))
    ensures PaddedRun(run, width) != "" && Free(PaddedRun(run, width), ",")
  {
    hide ToText, ValueOf, Filled, RangeTexts;
    var a, b := Filled(run.0, width), Filled(run.1, width);
    FilledIs(run.0, width);
    FilledIs(run.1, width);
    DigitsNumber(a);
    DigitsNumber(b);
    if run.0 == run.1 {
      assert Upto(run.0, run.0) == [run.0];
      assert Padded([run.0], width) == [a];
    } else {
      hide ExpandElement;
      PairExpands(a, b);
      RangeIsPadded(run.0, run.1, |a|, width);
    }
  }

  lemma {:induction false} RunsExpand(r: seq<(nat, nat)>, width: nat)
    requires RunsOk(r)
    ensures ExpandElements(PaddedRuns(r, width)) == Some(Padded(Flat(r), width)) && Words(PaddedRuns(r, width), ",")
    decreases |r|
  {
    hide ExpandElement, PaddedRun, Upto, Free, Filled;
    if r != [] {
      var init, run := r[..|r| - 1], r[|r| - 1];
      assert run in r && RunsOk(init);
      RunsExpand(init, width);
      RunExpands(run, width);
      assert PaddedRuns(r, width) == PaddedRuns(init, width) + [PaddedRun(run, width)];
      assert PaddedRuns(r, width)[..|r| - 1] == PaddedRuns(init, width);
      PaddedConcat(Flat(init), Upto(run.0, run.1), width);
    }
  }

  // What a printer with leading zeros writes, the expander reads as the same texts in order.
  lemma PaddedContentsExpand(v: seq<nat>, width: nat)
    requires v != [] && forall x <- v :: x < INT_MAX
    ensures ExpandContents(PaddedHuman(v, width)) == Some(Padded(v, width))
  {
    hide Runs, PaddedRuns, Join, Split, NonEmpty, ExpandElements, Padded, Flat;
    var r := Runs(v);
    RunsFlat(v);
    RunsExpand(r, width);
    SplitJoin(PaddedRuns(r, width), ',', ",");
    WordsNotEmpty(PaddedRuns(r, width), ",");
    NonEmptyKeeps(PaddedRuns(r, width));
  }

  // What the printer writes, the expander reads as the same numbers in the same order.
  lemma ContentsExpand(v: seq<nat>)
    requires v != [] && forall x <- v :: x < INT_MAX
    ensures ExpandContents(Human(v)) == Some(Texts(v))
  {
    hide Human, PaddedHuman, ExpandContents, Texts, Padded;
    PlainIsPadded(v);
    PaddedContentsExpand(v, 0);
  }

  lemma WordsNotEmpty(tokens: seq<string>, delims: string)
    requires Words(tokens, delims)
    ensures "" !in tokens
  {
  }

  // ---- The brackets in their surroundings ----

  lemma {:induction false} ColonBeforeBracket(a: string, t: string)
    ensures ColonAfterBrackets(a + "[" + t) == ColonAfterBrackets(a)
    decreases |a|
  {
    if a != "" {
      ColonBeforeBracket(a[1..], t);
      assert (a + "[" + t)[1..] == a[1..] + "[" + t;
    }
  }

  lemma {:induction false} ListLenBefore(a: string, c: char, t: string)
    requires !IsListChar(c)
    ensures ListLen(a + [c] + t) == ListLen(a)
    decreases |a|
  {
    if a == "" {
      assert (a + [c] + t)[0] == c;
    } else {
      ListLenBefore(a[1..], c, t);
      assert (a + [c] + t)[1..] == a[1..] + [c] + t;
    }
  }

  // An opening bracket further on does not change whether a pair starts here.
  lemma MatchBefore(a: string, t: string)
    requires a != ""
    ensures MatchLen(a + "[" + t) == MatchLen(a)
  {
    hide ListLen, ColonAfterBrackets;
    var s := a + "[" + t;
    assert s[0] == a[0] && s[1..] == a[1..] + "[" + t;
    ListLenBefore(a[1..], '[', t);
    if |a| > 1 {
      assert s[1..][1..] == a[1..][1..] + "[" + t;
      ColonBeforeBracket(a[1..][1..], t);
    } else {
      assert a[1..] == "" && s[1..] == "[" + t;
      assert s[1..][1..] == t;
      ListLenNone();
    }
    var n := ListLen(a[1..]);
    assert n + 1 <= |a|;
  }

  lemma ListLenNone()
    ensures ListLen("") == 0
  {
  }

  lemma {:induction false} FindBefore(a: string, t: string)
    ensures FindMatch(a + "[" + t) == if FindMatch(a) < |a| then FindMatch(a) else |a| + FindMatch("[" + t)
    decreases |a|
  {
    hide MatchLen;
    var s := a + "[" + t;
    if a == "" {
      assert s == "[" + t;
    } else {
      MatchBefore(a, t);
      assert s[1..] == a[1..] + "[" + t;
      FindBefore(a[1..], t);
    }
  }

  // Only contents of a single character can be taken for a part of an address.
  lemma AddressOnlyIf(c: string, suffix: string)
    requires c != "" && forall x <- c :: IsListChar(x)
    ensures LooksLikeAddress(c + "]" + suffix) <==> |c| == 1 && ColonAfterBrackets(suffix)
  {
    var t := c + "]" + suffix;
    var rest := t[1..];
    assert rest == c[1..] + "]" + suffix;
    if |c| == 1 {
      assert rest == "]" + suffix && rest[1..] == suffix;
    } else {
      assert c[1] in c && rest[0] == c[1];
    }
  }

  lemma MatchHere(c: string, suffix: string)
    requires c != "" && forall x <- c :: IsListChar(x)
    ensures MatchLen("[" + c + "]" + suffix) == if |c| == 1 && ColonAfterBrackets(suffix) then 0 else |c|
  {
    AddressOnlyIf(c, suffix);
    ListLenBefore(c, ']', suffix);
    AllListChars(c);
    hide ListLen, LooksLikeAddress, ColonAfterBrackets;
    var s := "[" + c + "]" + suffix;
    assert s[1..] == c + "]" + suffix;
    assert s[|c| + 1] == ']';
  }

  lemma {:induction false} AllListChars(c: string)
    requires forall x <- c :: IsListChar(x)
    ensures ListLen(c) == |c|
  {
    if c != "" {
      assert c[0] in c;
      AllListChars(c[1..]);
    }
  }

  predicate ListOnly(s: string) {
    s != "" && forall x <- s :: IsListChar(x)
  }

  lemma {:induction false} JoinIsList(tokens: seq<string>)
    requires tokens != [] && forall t <- tokens :: ListOnly(t)
    ensures ListOnly(Join(tokens, ','))
    decreases |tokens|
  {
    assert tokens[0] in tokens;
    if |tokens| > 1 { JoinIsList(tokens[1..]); }
  }

  lemma DigitsAreList(a: string)
    requires a != "" && AllDigits(a)
    ensures ListOnly(a)
  {
  }

  lemma PaddedChars(v: seq<nat>, width: nat)
    requires v != []
    ensures ListOnly(PaddedHuman(v, width))
  {
    hide Filled, Join, Runs, ListOnly, ToText;
    var tokens := PaddedRuns(Runs(v), width);
    forall t | t in tokens ensures ListOnly(t) {
      var i :| 0 <= i < |tokens| && t == tokens[i];
      PaddedRunIsList(Runs(v)[i], width);
    }
    JoinIsList(tokens);
  }

  lemma PaddedRunIsList(run: (nat, nat), width: nat)
    ensures ListOnly(PaddedRun(run, width))
  {
    hide Filled, ToText, ValueOf;
    FilledIs(run.0, width);
    FilledIs(run.1, width);
    DigitsAreList(Filled(run.0, width));
    DigitsAreList(Filled(run.1, width));
  }

  // A single character in brackets, followed by closing brackets and a colon.
  predicate LikeAddress(c: string, suffix: string) {
    |c| == 1 && ColonAfterBrackets(suffix)
  }

  predicate TakenForAddress(v: seq<nat>, suffix: string) {
    LikeAddress(Human(v), suffix)
  }

  function InBrackets(c: string, suffix: string): string {
    "[" + c + "]" + suffix
  }

  function Bracketed(v: seq<nat>, suffix: string): string {
    InBrackets(Human(v), suffix)
  }

  lemma Layout(prefix: string, c: string, suffix: string)
    ensures var s, p, n := prefix + ("[" + c + "]" + suffix), |prefix|, |c|;
      && s == prefix + "[" + (c + "]" + suffix) && "[" + c + "]" + suffix == "[" + (c + "]" + suffix)
      && |s| == p + n + 2 + |suffix| && s[p..] == "[" + c + "]" + suffix
      && s[..p] == prefix && s[p + 1..p + 1 + n] == c && s[p + n + 2..] == suffix && s[p] == '['
  {
    var s, p, n := prefix + ("[" + c + "]" + suffix), |prefix|, |c|;
    var t := c + "]" + suffix;
    assert "[" + c + "]" + suffix == "[" + t;
    AfterBracket(prefix, t);
    AfterContents(c, suffix);
    assert s[p + 1..p + 1 + n] == s[p + 1..][..n] && s[p + n + 2..] == s[p + 1..][n + 1..];
  }

  lemma AfterBracket(prefix: string, t: string)
    ensures var s, p := prefix + ("[" + t), |prefix|;
      s == prefix + "[" + t && s[..p] == prefix && s[p] == '[' && s[p..] == "[" + t && s[p + 1..] == t
  {
    var s, p := prefix + ("[" + t), |prefix|;
    assert s[..p] == prefix;
    assert s[p..] == "[" + t;
    assert s[p + 1..] == t;
  }

  lemma AfterContents(c: string, suffix: string)
    ensures var t := c + "]" + suffix; t[..|c|] == c && t[|c| + 1..] == suffix
  {
  }

  lemma FindsContents(prefix: string, c: string, suffix: string)
    requires ListOnly(c)
    ensures var s := prefix + InBrackets(c, suffix);
      && (FindMatch(prefix) < |prefix| ==> FindMatch(s) == FindMatch(prefix))
      && (FindMatch(prefix) == |prefix| ==> FindMatch(s) >= |prefix|)
      && (FindMatch(prefix) == |prefix| ==> (FindMatch(s) == |prefix| <==> !LikeAddress(c, suffix)))
      && (FindMatch(s) == |prefix| ==> MatchLen(s[|prefix|..]) == |c|)
  {
    hide FindMatch, MatchLen, ColonAfterBrackets;
    MatchHere(c, suffix);
    Layout(prefix, c, suffix);
    FindBefore(prefix, c + "]" + suffix);
    var t := "[" + c + "]" + suffix;
    FindAtStart(t);
    FindMatchBound(prefix);
    MatchFound(prefix + InBrackets(c, suffix), |prefix|);
  }

  lemma FindAtStart(s: string)
    requires s != ""
    ensures FindMatch(s) == 0 <==> MatchLen(s) > 0
  {
    hide MatchLen;
  }

  lemma MatchFound(s: string, p: nat)
    requires p < |s|
    ensures FindMatch(s) == p ==> MatchLen(s[p..]) > 0
  {
    hide MatchLen;
  }

  lemma ExpandAt(prefix: string, contents: string, suffix: string, m: seq<string>)
    requires var s := prefix + ("[" + contents + "]" + suffix);
      FindMatch(s) == |prefix| && MatchLen(s[|prefix|..]) == |contents| && ExpandContents(contents) == Some(m)
    ensures ExpandFirst(prefix + ("[" + contents + "]" + suffix)) == Some(Around(prefix, m, suffix))
  {
    hide FindMatch, MatchLen, ExpandContents, Around;
    Layout(prefix, contents, suffix);
  }

  // A pair before or behind leaves the contents as they are.
  lemma OtherwiseUntouched(prefix: string, c: string, suffix: string, m: seq<string>)
    requires ListOnly(c) && (FindMatch(prefix) < |prefix| || LikeAddress(c, suffix))
    requires m != [] && m[0] != "" && m[0][0] != '['
    ensures ExpandFirst(prefix + InBrackets(c, suffix)) != Some(Around(prefix, m, suffix))
  {
    hide FindMatch, MatchLen, ExpandContents, ExpandFirst, LikeAddress, ListOnly;
    FindsContents(prefix, c, suffix);
    FindMatchBound(prefix);
    Layout(prefix, c, suffix);
    var s := prefix + InBrackets(c, suffix);
    assert FindMatch(s) != |prefix| && prefix <= s;
    OtherPair(prefix, m[0], suffix, s, Around(prefix, m, suffix));
  }

  // Contents in brackets expand to their expansion between prefix and suffix, exactly if no
  // bracket pair before is expanded first and they are not taken for an address.
  lemma ExpandsInPlace(prefix: string, c: string, suffix: string, m: seq<string>)
    requires ListOnly(c) && ExpandContents(c) == Some(m) && m != [] && m[0] != "" && m[0][0] != '['
    ensures ExpandFirst(prefix + InBrackets(c, suffix)) == Some(Around(prefix, m, suffix))
      <==> FindMatch(prefix) == |prefix| && !LikeAddress(c, suffix)
  {
    hide ExpandFirst, Around, FindMatch, MatchLen, ExpandContents, LikeAddress, ListOnly;
    FindMatchBound(prefix);
    if FindMatch(prefix) == |prefix| && !LikeAddress(c, suffix) {
      FindsContents(prefix, c, suffix);
      ExpandAt(prefix, c, suffix, m);
    } else {
      OtherwiseUntouched(prefix, c, suffix, m);
    }
  }

  lemma PrintedExpands(prefix: string, v: seq<nat>, suffix: string)
    requires v != [] && forall x <- v :: x < INT_MAX
    requires FindMatch(prefix) == |prefix| && !TakenForAddress(v, suffix)
    ensures ExpandFirst(prefix + Bracketed(v, suffix)) == Some(Around(prefix, Texts(v), suffix))
  {
    hide ExpandFirst, Bracketed, Texts, Around, FindMatch, TakenForAddress;
    ExpandUndoesPrint(prefix, v, suffix);
  }

  lemma OtherPair(prefix: string, text: string, suffix: string, s: string, wanted: seq<string>)
    requires prefix <= s && |prefix| < |s| && s[|prefix|] == '[' && FindMatch(s) != |prefix|
    requires text != "" && text[0] != '[' && wanted != [] && wanted[0] == prefix + text + suffix
    ensures ExpandFirst(s) != Some(wanted)
  {
    hide FindMatch, ExpandFirst, Plain;
    if ExpandFirst(s).Some? && ExpandFirst(s).value != [] {
      var m, tail := FirstExpansion(s);
      FirstDiffers(prefix, text, suffix, s, FindMatch(s), m, tail);
    }
  }

  lemma FirstExpansion(s: string) returns (m: string, tail: string)
    requires ExpandFirst(s).Some? && ExpandFirst(s).value != []
    ensures FindMatch(s) < |s| && s[FindMatch(s)] == '[' && Plain(m)
    ensures ExpandFirst(s).value[0] == s[..FindMatch(s)] + m + tail
  {
    hide FindMatch, MatchLen, ExpandContents, Plain, AllPlain;
    var p := FindMatch(s);
    MatchContents(s, p);
    var n := MatchLen(s[p..]);
    ContentsPlain(s[p + 1..p + 1 + n]);
    var middles := ExpandContents(s[p + 1..p + 1 + n]).value;
    PlainOne(middles, 0);
    m, tail := middles[0], s[p + n + 2..];
  }

  // Replacing a bracket at p keeps what stands before it, and puts a plain character there.
  lemma FirstDiffers(prefix: string, text: string, suffix: string, s: string, p: nat, m: string, tail: string)
    requires p < |s| && s[p] == '[' && prefix <= s && |prefix| < |s| && s[|prefix|] == '['
    requires text != "" && text[0] != '[' && Plain(m) && p != |prefix|
    ensures s[..p] + m + tail != prefix + text + suffix
  {
    var got, wanted := s[..p] + m + tail, prefix + text + suffix;
    if p < |prefix| {
      assert wanted[p] == prefix[p] == '[' && got[p] == m[0] && m[0] in m;
    } else {
      assert got[|prefix|] == s[|prefix|] && wanted[|prefix|] == text[0];
    }
  }

  // Expanding a list printed with leading zeros gives each number in order, with its zeros.
  lemma ExpandUndoesPadding(prefix: string, v: seq<nat>, width: nat, suffix: string)
    requires v != [] && forall x <- v :: x < INT_MAX
    ensures ExpandFirst(prefix + InBrackets(PaddedHuman(v, width), suffix)) == Some(Around(prefix, Padded(v, width), suffix))
      <==> FindMatch(prefix) == |prefix| && !LikeAddress(PaddedHuman(v, width), suffix)
  {
    hide ExpandFirst, InBrackets, PaddedHuman, ExpandContents, Around, FindMatch, LikeAddress, ListOnly, Filled, ToText, ValueOf;
    PaddedChars(v, width);
    PaddedContentsExpand(v, width);
    FilledIs(v[0], width);
    var first := Padded(v, width)[0];
    assert first[0] in first && !IsDigit('[');
    ExpandsInPlace(prefix, PaddedHuman(v, width), suffix, Padded(v, width));
  }

  // Expanding a printed list in its brackets gives each number in order, exactly if no bracket
  // pair before it is expanded first, and it is not a single digit whose brackets are followed by
  // a colon (or by further closing brackets and a colon).
  lemma ExpandUndoesPrint(prefix: string, v: seq<nat>, suffix: string)
    requires v != [] && forall x <- v :: x < INT_MAX
    ensures ExpandFirst(prefix + Bracketed(v, suffix)) == Some(Around(prefix, Texts(v), suffix))
      <==> FindMatch(prefix) == |prefix| && !TakenForAddress(v, suffix)
  {
    hide ExpandFirst, InBrackets, Texts, Padded, Around, FindMatch, LikeAddress, Human, PaddedHuman;
    PlainIsPadded(v);
    ExpandUndoesPadding(prefix, v, 0, suffix);
  }

  // ---- Several printed lists in one string ----

  // A list of numbers in brackets, and the text behind it.
  datatype Part = Part(v: seq<nat>, after: string)

  function PartsText(parts: seq<Part>): string {
    if parts == [] then "" else Bracketed(parts[0].v, parts[0].after + PartsText(parts[1..]))
  }

  // The strings of the product: the numbers of the first list vary slowest.
  function Product(prefix: string, parts: seq<Part>): seq<string>
    decreases |parts|, 0
  {
    if parts == [] then [prefix] else ProductOf(prefix, parts[0].v, parts[0].after, parts[1..])
  }

  function ProductOf(prefix: string, v: seq<nat>, after: string, rest: seq<Part>): seq<string>
    decreases |rest|, |v| + 1
  {
    if v == [] then [] else Product(prefix + ToText(v[0]) + after, rest) + ProductOf(prefix, v[1..], after, rest)
  }

  // No list is taken for an address, and there is no bracket besides those of the lists.
  predicate PartsOk(parts: seq<Part>) {
    parts != [] ==>
      var rest := PartsText(parts[1..]);
      && parts[0].v != [] && (forall x <- parts[0].v :: x < INT_MAX) && '[' !in parts[0].after
      && !TakenForAddress(parts[0].v, parts[0].after + rest) && PartsOk(parts[1..])
  }

  lemma {:induction false} NoBracketNoMatch(s: string)
    requires '[' !in s
    ensures FindMatch(s) == |s| && ExpandFirst(s) == Some([])
    decreases |s|
  {
    if s != "" { NoBracketNoMatch(s[1..]); }
  }

  lemma TextHasNoBracket(prefix: string, n: nat, after: string)
    requires '[' !in prefix && '[' !in after
    ensures '[' !in prefix + ToText(n) + after
  {
    hide ToText;
  }

  lemma AroundStep(prefix: string, v: seq<nat>, suffix: string)
    requires v != []
    ensures Around(prefix, Texts(v), suffix)
      == [prefix + ToText(v[0]) + suffix] + Around(prefix, Texts(v[1..]), suffix)
  {
    hide ToText;
  }

  lemma {:induction false} EachExpands(prefix: string, v: seq<nat>, after: string, rest: seq<Part>)
    requires '[' !in prefix && '[' !in after && PartsOk(rest)
    ensures ExpandAll(Around(prefix, Texts(v), after + PartsText(rest))) == Some(ProductOf(prefix, v, after, rest))
    decreases |rest|, |v| + 1
  {
    hide ToText, ExpandAll, ExpandFully, PartsOk, PartsText;
    var tail := PartsText(rest);
    if v == [] {
      assert Around(prefix, Texts(v), after + tail) == [];
      NothingToExpand();
    } else {
      var p := prefix + ToText(v[0]) + after;
      assert prefix + ToText(v[0]) + (after + tail) == p + tail;
      AroundStep(prefix, v, after + tail);
      HeadExpands(p + tail, Around(prefix, Texts(v[1..]), after + tail));
      TextHasNoBracket(prefix, v[0], after);
      ListsExpand(p, rest);
      EachExpands(prefix, v[1..], after, rest);
    }
  }

  // Any number of printed lists in one string expand to their product, in order.
  lemma {:induction false} ListsExpand(prefix: string, parts: seq<Part>)
    requires '[' !in prefix && PartsOk(parts)
    ensures ExpandFully(prefix + PartsText(parts)) == Some(Product(prefix, parts))
    decreases |parts|, 0
  {
    hide ExpandAll, ExpandFirst, ProductOf, TakenForAddress;
    NoBracketNoMatch(prefix);
    if parts == [] {
      assert prefix + "" == prefix;
      StaysAsItIs(prefix);
    } else {
      var part, rest := parts[0], parts[1..];
      PrintedExpands(prefix, part.v, part.after + PartsText(rest));
      EachExpands(prefix, part.v, part.after, rest);
    }
  }

  // A host with a single digit in brackets and a port is left as it is; with two digits it is
  // expanded.
  lemma PortAfterOneDigit()
    ensures ExpandFirst("h" + Bracketed([1], ":80")) != Some(Around("h", Texts([1]), ":80"))
    ensures ExpandFirst("h" + Bracketed([12], ":80")) == Some(Around("h", Texts([12]), ":80"))
  {
    hide ExpandFirst, Bracketed, Texts, Around;
    ExpandUndoesPrint("h", [1], ":80");
    ExpandUndoesPrint("h", [12], ":80");
    assert "h"[1..] == "" && FindMatch("") == 0;
    OneNumber(1);
    OneNumber(12);
    assert |ToText(12)| == 2;
  }

  lemma OneNumber(n: nat)
    ensures Human([n]) == ToText(n)
  {
    hide ToText;
    assert RunTexts([(n, n)]) == [ToText(n)];
  }

  lemma FindMatchBound(s: string)
    ensures FindMatch(s) <= |s|
  {
  }

  // ---- Commas outside of brackets ----

  function DepthAfter(s: string, depth: nat): nat {
    if s == "" then depth
    else DepthAfter(s[1..], if s[0] == '[' then depth + 1 else if s[0] == ']' && depth > 0 then depth - 1 else depth)
  }

  function Replaced(s: string, depth: nat, replacement: string): string {
    if s == "" then ""
    else if s[0] == '[' then [s[0]] + Replaced(s[1..], depth + 1, replacement)
    else if s[0] == ']' then [s[0]] + Replaced(s[1..], if depth > 0 then depth - 1 else 0, replacement)
    else if s[0] == ',' && depth == 0 then replacement + Replaced(s[1..], depth, replacement)
    else [s[0]] + Replaced(s[1..], depth, replacement)
  }

  lemma DepthOfChar(c: char, depth: nat)
    ensures DepthAfter([c], depth) == if c == '[' then depth + 1 else if c == ']' && depth > 0 then depth - 1 else depth
  {
    assert [c][1..] == "";
  }

  // Whether a comma stands outside of brackets.
  predicate HasOuterComma(s: string, depth: nat) {
    s != "" && ((s[0] == ',' && depth == 0) || HasOuterComma(s[1..], DepthAfter([s[0]], depth)))
  }

  // What stands for the character in the result.
  function PieceFor(c: char, depth: nat, replacement: string): string {
    if c == ',' && depth == 0 then replacement else [c]
  }

  lemma ReplacedStep(s: string, i: nat, depth: nat, replacement: string)
    requires i < |s|
    ensures var d := if s[i] == '[' then depth + 1 else if s[i] == ']' && depth > 0 then depth - 1 else depth;
      && Replaced(s[i..], depth, replacement)
         == PieceFor(s[i], depth, replacement) + Replaced(s[i + 1..], d, replacement)
      && HasOuterComma(s[i..], depth) == ((s[i] == ',' && depth == 0) || HasOuterComma(s[i + 1..], d))
  {
    assert s[i..][0] == s[i] && s[i..][1..] == s[i + 1..];
    DepthOfChar(s[i], depth);
  }

  method ReplaceCommas(s: string, replacement: string) returns (out: string, didReplace: bool)
    ensures out == Replaced(s, 0, replacement) && didReplace == HasOuterComma(s, 0)
  {
    hide Replaced, HasOuterComma;
    out, didReplace := "", false;
    var depth, i := 0, 0;
    assert s[0..] == s && "" + Replaced(s, 0, replacement) == Replaced(s, 0, replacement);
    while i < |s|
      invariant i <= |s| && out + Replaced(s[i..], depth, replacement) == Replaced(s, 0, replacement)
      invariant (didReplace || HasOuterComma(s[i..], depth)) == HasOuterComma(s, 0)
    {
      var c := s[i];
      ReplacedStep(s, i, depth, replacement);
      ghost var before, piece := out, PieceFor(c, depth, replacement);
      if c == '[' {
        depth := depth + 1;
        out := out + [c];
      } else if c == ']' {
        if depth > 0 {
          depth := depth - 1;
        }
        out := out + [c];
      } else if c == ',' && depth == 0 {
        out := out + replacement;
        didReplace := true;
      } else {
        out := out + [c];
      }
      i := i + 1;
      assert out == before + piece;
      Regrouped(before, piece, Replaced(s[i..], depth, replacement));
    }
    NothingReplaced(depth, replacement);
    assert s[i..] == "" && out + "" == out;
  }

  lemma Regrouped(a: string, b: string, c: string)
    ensures a + (b + c) == (a + b) + c
  {
  }

  lemma NothingReplaced(depth: nat, replacement: string)
    ensures Replaced("", depth, replacement) == "" && !HasOuterComma("", depth)
  {
  }

  // A spec of the list: not empty, every bracket closed, commas only inside of brackets.
  predicate IsSpec(s: string, delims: string) {
    s != "" && Free(s, delims) && DepthAfter(s, 0) == 0 && !HasOuterComma(s, 0)
  }

  lemma {:induction false} ReplacedConcat(a: string, b: string, depth: nat, replacement: string)
    ensures Replaced(a + b, depth, replacement)
      == Replaced(a, depth, replacement) + Replaced(b, DepthAfter(a, depth), replacement)
    decreases |a|
  {
    if a == "" {
      assert a + b == b;
    } else {
      assert (a + b)[0] == a[0] && (a + b)[1..] == a[1..] + b;
      var d := if a[0] == '[' then depth + 1 else if a[0] == ']' && depth > 0 then depth - 1 else depth;
      ReplacedConcat(a[1..], b, d, replacement);
      Regrouped(PieceFor(a[0], depth, replacement), Replaced(a[1..], d, replacement),
                Replaced(b, DepthAfter(a, depth), replacement));
    }
  }

  lemma {:induction false} InnerCommasStay(s: string, depth: nat, replacement: string)
    requires !HasOuterComma(s, depth)
    ensures Replaced(s, depth, replacement) == s
    decreases |s|
  {
    if s != "" {
      DepthOfChar(s[0], depth);
      assert s == [s[0]] + s[1..];
      InnerCommasStay(s[1..], DepthAfter([s[0]], depth), replacement);
    }
  }

  lemma {:induction false} JoinReplaced(specs: seq<string>, delims: string, sep: char)
    requires specs != [] && forall s <- specs :: IsSpec(s, delims)
    ensures Replaced(Join(specs, ','), 0, [sep]) == Join(specs, sep)
    decreases |specs|
  {
    hide IsSpec;
    assert specs[0] in specs;
    SpecStays(specs[0], delims, [sep]);
    if |specs| > 1 {
      var rest := Join(specs[1..], ',');
      JoinReplaced(specs[1..], delims, sep);
      hide Join, Replaced;
      CommaReplaced(specs[0], rest, [sep]);
      JoinStep(specs, ',');
      JoinStep(specs, sep);
    }
  }

  lemma JoinStep(specs: seq<string>, sep: char)
    requires |specs| > 1
    ensures Join(specs, sep) == specs[0] + ([sep] + Join(specs[1..], sep))
  {
    assert specs[0] + [sep] + Join(specs[1..], sep) == specs[0] + ([sep] + Join(specs[1..], sep));
  }

  lemma SpecStays(s: string, delims: string, replacement: string)
    requires IsSpec(s, delims)
    ensures Replaced(s, 0, replacement) == s && DepthAfter(s, 0) == 0
  {
    InnerCommasStay(s, 0, replacement);
  }

  lemma CommaReplaced(s: string, rest: string, replacement: string)
    requires Replaced(s, 0, replacement) == s && DepthAfter(s, 0) == 0
    ensures Replaced(s + ("," + rest), 0, replacement) == s + (replacement + Replaced(rest, 0, replacement))
  {
    ReplacedConcat(s, "," + rest, 0, replacement);
    assert ("," + rest)[1..] == rest;
  }

  function EraseCommas(s: string): (t: string)
    ensures ',' !in t
  {
    if s == "" then "" else (if s[0] == ',' then "" else [s[0]]) + EraseCommas(s[1..])
  }

  method SplitAndExpandStr(str: string, delimiters: string) returns (out: Option<seq<string>>)
    ensures out == SplitAndExpanded(str, delimiters)
  {
    hide ExpandAll, Split, Replaced, EraseCommas;
    var nonCommaDelimiters := EraseCommas(delimiters);
    if nonCommaDelimiters == "" {
      return None;
    }
    var replaced, _ := ReplaceCommas(str, nonCommaDelimiters[..1]);
    var expanded, _ := ExpandSquareBrackets(Split(replaced, nonCommaDelimiters));
    return expanded;
  }

  ghost function SplitAndExpanded(str: string, delimiters: string): Option<seq<string>> {
    var delims := EraseCommas(delimiters);
    if delims == "" then None else ExpandAll(Split(Replaced(str, 0, delims[..1]), delims))
  }

  // Splitting a comma-joined list of specs expands each spec, in order.
  lemma SplitExpandsSpecs(specs: seq<string>, delimiters: string)
    requires specs != [] && EraseCommas(delimiters) != ""
    requires forall s <- specs :: IsSpec(s, EraseCommas(delimiters))
    ensures SplitAndExpanded(Join(specs, ','), delimiters) == ExpandAll(specs)
  {
    hide ExpandAll, Split, Replaced, EraseCommas, Join, DepthAfter, HasOuterComma;
    var delims := EraseCommas(delimiters);
    assert delims[..1] == [delims[0]];
    JoinReplaced(specs, delims, delims[0]);
    assert Words(specs, delims);
    SplitJoin(specs, delims[0], delims);
  }
}
