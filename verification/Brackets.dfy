/**
 * Lists of numbers in square brackets: printing a list with ranges, expanding the first bracket
 * pair of a string, expanding all strings of a list, and splitting a list at the commas outside
 * of brackets.
 */
module Brackets {
  import opened Options
  import opened Text

  const INT_MAX: nat := 0x7fff_ffff

  // ---- Printing ----

  // Maximal runs of consecutive numbers, as first and last number.
  function Runs(v: seq<nat>): (r: seq<(nat, nat)>)
    requires v != []
    ensures r != [] && r[|r| - 1].1 == v[|v| - 1]
  {
    var x := v[|v| - 1];
    if |v| == 1 then [(x, x)]
    else
      var r := Runs(v[..|v| - 1]);
      var run := r[|r| - 1];
      if x == run.1 + 1 then r[..|r| - 1] + [(run.0, x)] else r + [(x, x)]
  }

  function RunText(run: (nat, nat)): string {
    if run.0 == run.1 then ToText(run.0) else ToText(run.0) + "-" + ToText(run.1)
  }

  function RunTexts(r: seq<(nat, nat)>): (t: seq<string>)
    ensures |t| == |r|
  {
    seq(|r|, i requires 0 <= i < |r| => RunText(r[i]))
  }

  function Human(v: seq<nat>): string {
    if v == [] then "" else Join(RunTexts(Runs(v)), ',')
  }

  // The finished runs, each followed by a comma.
  function Finished(r: seq<(nat, nat)>): string {
    if r == [] then "" else Finished(r[..|r| - 1]) + RunText(r[|r| - 1]) + ","
  }

  lemma {:induction false} FinishedJoin(r: seq<(nat, nat)>, last: (nat, nat))
    ensures Join(RunTexts(r + [last]), ',') == Finished(r) + RunText(last)
    decreases |r|
  {
    hide RunText;
    if r == [] {
      assert RunTexts([] + [last]) == [RunText(last)];
    } else {
      var init, x := r[..|r| - 1], r[|r| - 1];
      FinishedJoin(init, x);
      assert init + [x] == r;
      JoinSnoc(RunTexts(r), RunText(last), ',');
      assert RunTexts(r + [last]) == RunTexts(r) + [RunText(last)];
    }
  }

  lemma RunsStep(v: seq<nat>, i: nat, done: seq<(nat, nat)>, run: (nat, nat))
    requires 1 <= i < |v| && Runs(v[..i]) == done + [run]
    ensures Runs(v[..i + 1]) == if v[i] == run.1 + 1 then done + [(run.0, v[i])] else done + [run] + [(v[i], v[i])]
  {
    assert v[..i + 1][..i] == v[..i];
    assert (done + [run])[..|done|] == done;
  }

  lemma FinishedStep(done: seq<(nat, nat)>, run: (nat, nat))
    ensures Finished(done + [run]) == Finished(done) + RunText(run) + ","
  {
    assert (done + [run])[..|done|] == done;
  }

  lemma FirstRun(v: seq<nat>)
    requires v != []
    ensures Runs(v[..1]) == [] + [(v[0], v[0])] && Finished([]) == ""
  {
  }

  method IntVecToHumanStr(v: seq<nat>) returns (s: string)
    ensures s == Human(v)
  {
    hide Join, Runs, Finished, ToText;
    s := "";
    if v == [] {
      return;
    }
    var rangeStart, rangeLast := v[0], v[0];
    ghost var done: seq<(nat, nat)> := [];
    FirstRun(v);
    var i := 1;
    while i < |v|
      invariant 1 <= i <= |v| && Runs(v[..i]) == done + [(rangeStart, rangeLast)] && s == Finished(done)
    {
      ghost var run := (rangeStart, rangeLast);
      RunsStep(v, i, done, run);
      if v[i] == rangeLast + 1 {
        rangeLast := v[i];
      } else {
        FinishedStep(done, run);
        if rangeStart == rangeLast {
          s := s + ToText(rangeStart) + ",";
        } else {
          s := s + (ToText(rangeStart) + "-" + ToText(rangeLast)) + ",";
        }
        done := done + [run];
        rangeStart, rangeLast := v[i], v[i];
      }
      i := i + 1;
    }
    assert v[..|v|] == v;
    FinishedJoin(done, (rangeStart, rangeLast));
    if rangeStart == rangeLast {
      s := s + ToText(rangeStart);
    } else {
      s := s + (ToText(rangeStart) + "-" + ToText(rangeLast));
    }
  }

  // ---- Expanding the contents of brackets ----

  function Zeros(n: nat): string {
    seq(n, _ => '0')
  }

  // The text of a number, filled up with leading zeros.
  function Filled(n: nat, len: nat): string {
    var t := ToText(n);
    if |t| < len then Zeros(len - |t|) + t else t
  }

  function RangeTexts(first: nat, last: nat, len: nat): seq<string>
    decreases last + 1 - first
  {
    if first > last then [] else [Filled(first, len)] + RangeTexts(first + 1, last, len)
  }

  // A number of a range. Only digits can occur in it; stoi() rejects what an int cannot hold.
  function RangeNumber(s: string): Option<nat> {
    if !AllDigits(s) then None
    else
      var t := StripZeros(s);
      if t == "" then Some(0) else if ValueOf(t) > INT_MAX then None else Some(ValueOf(t))
  }

  // One element between the commas. A range up to INT_MAX has no end, since the counter cannot
  // pass it; it counts as a failure here.
  function ExpandElement(elem: string): Option<seq<string>> {
    if '-' !in elem then Some([elem])
    else
      var parts := Split(elem, "-");
      if |parts| != 2 then None
      else
        var first, last := RangeNumber(parts[0]), RangeNumber(parts[1]);
        if first.None? || last.None? || last.value == INT_MAX then None
        else Some(RangeTexts(first.value, last.value, |parts[0]|))
  }

  function ExpandElements(elems: seq<string>): Option<seq<string>> {
    if elems == [] then Some([])
    else
      var head, last := ExpandElements(elems[..|elems| - 1]), ExpandElement(elems[|elems| - 1]);
      if head.None? || last.None? then None else Some(head.value + last.value)
  }

  function NonEmpty(elems: seq<string>): (r: seq<string>)
    ensures forall e <- r :: e in elems && e != ""
  {
    if elems == [] then []
    else NonEmpty(elems[..|elems| - 1]) + if elems[|elems| - 1] != "" then [elems[|elems| - 1]] else []
  }

  function ExpandContents(contents: string): Option<seq<string>> {
    var elems := NonEmpty(Split(contents, ","));
    if elems == [] then None else ExpandElements(elems)
  }

  // ---- Finding the brackets ----

  predicate IsListChar(c: char) {
    IsDigit(c) || c == ',' || c == '-'
  }

  // The number of list characters at the start.
  function ListLen(s: string): (n: nat)
    ensures n <= |s| && forall c <- s[..n] :: IsListChar(c)
  {
    if s == "" || !IsListChar(s[0]) then 0
    else
      var n := 1 + ListLen(s[1..]);
      assert s[..n] == [s[0]] + s[1..][..n - 1];
      n
  }

  // Closing brackets and then a colon.
  predicate ColonAfterBrackets(s: string) {
    s != "" && (s[0] == ':' || (s[0] == ']' && ColonAfterBrackets(s[1..])))
  }

  // The look-ahead is meant to skip bracket pairs with a colon inside, as in IPv6 addresses. As
  // the pattern is read, it sees any one character, closing brackets, and then a colon.
  predicate LooksLikeAddress(s: string) {
    s != "" && ColonAfterBrackets(s[1..])
  }

  // The length of the contents if a bracket pair to expand starts here, otherwise 0.
  function MatchLen(s: string): (n: nat)
    ensures n > 0 ==> n + 2 <= |s| && s[0] == '[' && s[n + 1] == ']'
  {
    if s == "" || s[0] != '[' || LooksLikeAddress(s[1..]) then 0
    else
      var n := ListLen(s[1..]);
      if n + 1 < |s| && s[n + 1] == ']' then n else 0
  }

  // The position of the first bracket pair to expand, or the length of the string.
  function FindMatch(s: string): (p: nat)
    ensures p <= |s| && (p < |s| ==> MatchLen(s[p..]) > 0)
  {
    if s == "" then 0
    else if MatchLen(s) > 0 then (assert s[0..] == s; 0)
    else (assert forall q | 0 <= q < |s| :: s[1..][q..] == s[q + 1..]; 1 + FindMatch(s[1..]))
  }

  function Around(prefix: string, middles: seq<string>, suffix: string): (r: seq<string>)
    ensures |r| == |middles|
  {
    seq(|middles|, i requires 0 <= i < |middles| => prefix + middles[i] + suffix)
  }

  // The strings that replace s when its first bracket pair is expanded; none if it has none.
  function ExpandFirst(s: string): Option<seq<string>> {
    var p := FindMatch(s);
    if p == |s| then Some([])
    else
      var n := MatchLen(s[p..]);
      var middles := ExpandContents(s[p + 1..p + 1 + n]);
      if middles.None? then None else Some(Around(s[..p], middles.value, s[p + n + 2..]))
  }

  // ---- The expander ----

  lemma {:induction false} NonEmptySkips(before: seq<string>, after: seq<string>)
    ensures NonEmpty(before + [""] + after) == NonEmpty(before + after)
    decreases |after|
  {
    if after == [] {
      assert before + [""] + after == before + [""] && (before + [""])[..|before|] == before && before + after == before;
    } else {
      var init, x := after[..|after| - 1], after[|after| - 1];
      NonEmptySkips(before, init);
      assert (before + [""] + after)[..|before| + |after|] == before + [""] + init;
      assert (before + after)[..|before| + |init|] == before + init;
    }
  }

  lemma {:induction false} NonEmptyKeeps(elems: seq<string>)
    requires "" !in elems
    ensures NonEmpty(elems) == elems
    decreases |elems|
  {
    if elems != [] {
      NonEmptyKeeps(elems[..|elems| - 1]);
      assert elems == elems[..|elems| - 1] + [elems[|elems| - 1]];
    }
  }

  method FindEmpty(elems: seq<string>) returns (i: nat)
    ensures i <= |elems| && (i < |elems| ==> elems[i] == "") && (i == |elems| ==> "" !in elems)
  {
    i := 0;
    while i < |elems| && elems[i] != ""
      invariant i <= |elems| && "" !in elems[..i]
    {
      i := i + 1;
    }
    assert elems[..|elems|] == elems;
  }

  // Deletes the empty elements, one after the other.
  method DeleteEmpty(all: seq<string>) returns (elems: seq<string>)
    ensures elems == NonEmpty(all)
  {
    hide NonEmpty;
    elems := all;
    while true
      invariant NonEmpty(elems) == NonEmpty(all)
      decreases |elems|
    {
      var i := FindEmpty(elems);
      if i == |elems| {
        break;
      }
      assert elems == elems[..i] + [""] + elems[i + 1..];
      NonEmptySkips(elems[..i], elems[i + 1..]);
      elems := elems[..i] + elems[i + 1..];
    }
    NonEmptyKeeps(elems);
  }

  lemma {:induction false} ExpandFails(elems: seq<string>, n: nat)
    requires n < |elems| && ExpandElement(elems[n]).None?
    ensures ExpandElements(elems).None?
    decreases |elems|
  {
    hide ExpandElement;
    if n < |elems| - 1 { ExpandFails(elems[..|elems| - 1], n); }
  }

  lemma AroundConcat(prefix: string, a: seq<string>, b: seq<string>, suffix: string)
    ensures Around(prefix, a + b, suffix) == Around(prefix, a, suffix) + Around(prefix, b, suffix)
  {
  }

  lemma SingleAround(prefix: string, m: string, suffix: string)
    ensures Around(prefix, [m], suffix) == [prefix + m + suffix] && Around(prefix, [], suffix) == []
  {
  }

  lemma RangeStep(first: nat, last: nat, len: nat)
    ensures RangeTexts(first, last, len)
      == if first > last then [] else [Filled(first, len)] + RangeTexts(first + 1, last, len)
  {
  }

  // Expands one element into the string around it.
  method ExpandInto(prefix: string, elem: string, suffix: string) returns (r: Option<seq<string>>)
    ensures r == match ExpandElement(elem) case None => None case Some(m) => Some(Around(prefix, m, suffix))
  {
    hide Split, RangeNumber, RangeTexts, Around, Filled;
    SingleAround(prefix, elem, suffix);
    if '-' !in elem {
      return Some([prefix + elem + suffix]);
    }
    var parts := Split(elem, "-");
    if |parts| != 2 {
      return None;
    }
    var first, last := RangeNumber(parts[0]), RangeNumber(parts[1]);
    if first.None? || last.None? || last.value == INT_MAX {
      return None;
    }
    var out, i, len := [], first.value, |parts[0]|;
    ghost var texts := [];
    while i <= last.value
      invariant texts + RangeTexts(i, last.value, len) == RangeTexts(first.value, last.value, len)
      invariant out == Around(prefix, texts, suffix)
      decreases last.value + 1 - i
    {
      var filled := Filled(i, len);
      RangeStep(i, last.value, len);
      AroundConcat(prefix, texts, [filled], suffix);
      SingleAround(prefix, filled, suffix);
      out := out + [prefix + filled + suffix];
      texts := texts + [filled];
      i := i + 1;
    }
    RangeStep(i, last.value, len);
    assert texts + [] == texts;
    return Some(out);
  }

  lemma ElementsStep(elems: seq<string>, i: nat)
    requires i < |elems|
    ensures ExpandElements(elems[..i + 1]) ==
      var head, last := ExpandElements(elems[..i]), ExpandElement(elems[i]);
      if head.None? || last.None? then None else Some(head.value + last.value)
  {
    hide ExpandElement;
    assert elems[..i + 1][..i] == elems[..i];
  }

  lemma NoElements(elems: seq<string>)
    ensures ExpandElements(elems[..0]) == Some([])
  {
  }

  method ExpandSquareBracketsStr(input: string) returns (out: Option<seq<string>>)
    ensures out == ExpandFirst(input)
  {
    hide FindMatch, MatchLen, Split, NonEmpty, ExpandElements, ExpandElement, Around;
    var p := FindMatch(input);
    if p == |input| {
      return Some([]);
    }
    var n := MatchLen(input[p..]);
    var prefix, suffix := input[..p], input[p + n + 2..];
    var elems := DeleteEmpty(Split(input[p + 1..p + 1 + n], ","));
    if elems == [] {
      return None;
    }
    var strs := [];
    ghost var middles := [];
    SingleAround(prefix, "", suffix);
    NoElements(elems);
    var i := 0;
    while i < |elems|
      invariant i <= |elems| && ExpandElements(elems[..i]) == Some(middles) && strs == Around(prefix, middles, suffix)
    {
      ElementsStep(elems, i);
      var r := ExpandInto(prefix, elems[i], suffix);
      if r.None? {
        ExpandFails(elems, i);
        return None;
      }
      AroundConcat(prefix, middles, ExpandElement(elems[i]).value, suffix);
      strs := strs + r.value;
      middles := middles + ExpandElement(elems[i]).value;
      i := i + 1;
    }
    assert elems[..|elems|] == elems;
    return Some(strs);
  }

  // ---- Expanding until no brackets are left ----

  // The number of opening brackets.
  function Opens(s: string): nat {
    if s == "" then 0 else Opens(s[..|s| - 1]) + if s[|s| - 1] == '[' then 1 else 0
  }

  lemma {:induction false} OpensConcat(a: string, b: string)
    ensures Opens(a + b) == Opens(a) + Opens(b)
    decreases |b|
  {
    if b == "" {
      assert a + b == a;
    } else {
      OpensConcat(a, b[..|b| - 1]);
      assert (a + b)[..|a + b| - 1] == a + b[..|b| - 1];
    }
  }

  lemma {:induction false} NoOpens(s: string)
    requires '[' !in s
    ensures Opens(s) == 0
    decreases |s|
  {
    if s != "" { NoOpens(s[..|s| - 1]); }
  }

  // Text that can stand in the place of brackets.
  predicate Plain(s: string) {
    s != "" && '[' !in s
  }

  predicate AllPlain(strs: seq<string>) {
    forall s <- strs :: Plain(s)
  }

  lemma {:induction false} SplitChars(s: string, delims: string)
    requires '[' !in s
    ensures forall t <- Split(s, delims) :: '[' !in t
    decreases |s|
  {
    var n := TokenLen(s, delims);
    if n < |s| {
      var rest := SkipDelims(s[n + 1..], delims);
      SkipIsSuffix(s[n + 1..], delims);
      SplitChars(rest, delims);
    }
  }

  lemma {:induction false} SkipIsSuffix(s: string, delims: string)
    ensures '[' !in s ==> '[' !in SkipDelims(s, delims)
  {
    if s != "" && s[0] in delims { SkipIsSuffix(s[1..], delims); }
  }

  lemma FilledPlain(n: nat, len: nat)
    ensures Plain(Filled(n, len))
  {
    assert !IsDigit('[');
  }

  lemma {:induction false} RangePlain(first: nat, last: nat, len: nat)
    ensures AllPlain(RangeTexts(first, last, len))
    decreases last + 1 - first
  {
    hide Filled, Plain;
    if first <= last {
      FilledPlain(first, len);
      RangePlain(first + 1, last, len);
    }
  }

  lemma {:induction false} ElementsPlain(elems: seq<string>)
    requires AllPlain(elems)
    ensures ExpandElements(elems).Some? ==> AllPlain(ExpandElements(elems).value)
    decreases |elems|
  {
    hide Split, RangeNumber, RangeTexts, Plain;
    if elems != [] {
      var elem := elems[|elems| - 1];
      assert elem in elems && AllPlain(elems[..|elems| - 1]);
      ElementsPlain(elems[..|elems| - 1]);
      var parts := Split(elem, "-");
      if |parts| == 2 && RangeNumber(parts[0]).Some? && RangeNumber(parts[1]).Some? {
        RangePlain(RangeNumber(parts[0]).value, RangeNumber(parts[1]).value, |parts[0]|);
      }
    }
  }

  lemma ContentsPlain(contents: string)
    requires '[' !in contents
    ensures ExpandContents(contents).Some? ==> AllPlain(ExpandContents(contents).value)
  {
    hide Split, NonEmpty, ExpandElements;
    SplitChars(contents, ",");
    var elems := NonEmpty(Split(contents, ","));
    assert AllPlain(elems);
    ElementsPlain(elems);
  }

  lemma MatchContents(s: string, p: nat)
    requires p < |s| && MatchLen(s[p..]) > 0
    ensures var n := MatchLen(s[p..]);
      p + n + 2 <= |s| && s[p] == '[' && s == s[..p] + ("[" + s[p + 1..p + 1 + n] + "]") + s[p + n + 2..]
      && '[' !in s[p + 1..p + 1 + n]
  {
    hide LooksLikeAddress, ListLen;
    var n, t := MatchLen(s[p..]), s[p..];
    assert t[1..] == s[p + 1..] && n == ListLen(s[p + 1..]);
    assert s[p + 1..][..n] == s[p + 1..p + 1 + n];
    assert !IsListChar('[');
    assert t[n + 1] == s[p + n + 1];
  }

  // Every string that replaces s has one opening bracket less.
  lemma ExpansionShrinks(s: string, e: string)
    requires ExpandFirst(s).Some? && e in ExpandFirst(s).value
    ensures Opens(e) == Opens(s) - 1
  {
    hide FindMatch, MatchLen, ExpandContents, Opens, AllPlain;
    var p := FindMatch(s);
    var n := MatchLen(s[p..]);
    MatchContents(s, p);
    var contents := s[p + 1..p + 1 + n];
    ContentsPlain(contents);
    var middles := ExpandContents(contents).value;
    var i :| 0 <= i < |middles| && e == s[..p] + middles[i] + s[p + n + 2..];
    PlainOne(middles, i);
    ReplacementShrinks(s[..p], contents, middles[i], s[p + n + 2..]);
  }

  lemma PlainOne(strs: seq<string>, i: nat)
    requires AllPlain(strs) && i < |strs|
    ensures Plain(strs[i])
  {
  }

  lemma ReplacementShrinks(prefix: string, contents: string, m: string, suffix: string)
    requires '[' !in contents && '[' !in m
    ensures Opens(prefix + m + suffix) == Opens(prefix + ("[" + contents + "]") + suffix) - 1
  {
    hide Opens;
    OpensAround(prefix, m, suffix);
    OpensAround(prefix, "[" + contents + "]", suffix);
    OpensAround("[", contents, "]");
    BracketOpens();
    NoOpens(contents);
    NoOpens(m);
  }

  lemma OpensAround(a: string, b: string, c: string)
    ensures Opens(a + b + c) == Opens(a) + Opens(b) + Opens(c)
  {
    hide Opens;
    OpensConcat(a, b);
    OpensConcat(a + b, c);
  }

  lemma BracketOpens()
    ensures Opens("[") == 1 && Opens("]") == 0
  {
    assert "["[..0] == "" && "]"[..0] == "";
  }

  function MaxOpens(strs: seq<string>): nat {
    if strs == [] then 0
    else
      var rest, x := MaxOpens(strs[1..]), Opens(strs[0]);
      if x >= rest then x else rest
  }

  lemma {:induction false} MostOpens(strs: seq<string>) returns (e: string)
    requires strs != []
    ensures e in strs && Opens(e) == MaxOpens(strs)
    decreases |strs|
  {
    hide Opens;
    e := strs[0];
    if |strs| > 1 {
      var r := MostOpens(strs[1..]);
      if Opens(e) < Opens(r) { e := r; }
    }
  }

  // The expansion of one string, bracket pair after bracket pair, and of a list of strings.
  ghost function ExpandFully(s: string): Option<seq<string>>
    decreases Opens(s), 0
  {
    match ExpandFirst(s)
    case None => None
    case Some(strs) =>
      if strs == [] then Some([s])
      else
        ShrinksAll(s);
        ExpandAll(strs)
  }

  ghost function ExpandAll(strs: seq<string>): Option<seq<string>>
    decreases MaxOpens(strs), |strs| + 1
  {
    if strs == [] then Some([])
    else
      MaxOpensRest(strs);
      Both(ExpandFully(strs[0]), ExpandAll(strs[1..]))
  }

  function Both(a: Option<seq<string>>, b: Option<seq<string>>): Option<seq<string>> {
    if a.None? || b.None? then None else Some(a.value + b.value)
  }

  lemma ShrinksAll(s: string)
    requires ExpandFirst(s).Some? && ExpandFirst(s).value != []
    ensures MaxOpens(ExpandFirst(s).value) < Opens(s)
  {
    hide ExpandFirst, Opens, MaxOpens;
    var strs := ExpandFirst(s).value;
    var e := MostOpens(strs);
    ExpansionShrinks(s, e);
  }

  lemma MaxOpensRest(strs: seq<string>)
    requires strs != []
    ensures Opens(strs[0]) <= MaxOpens(strs) && MaxOpens(strs[1..]) <= MaxOpens(strs)
  {
    hide Opens;
  }

  // The number of expansions of a string, counting itself; what the index loop has ahead of it.
  ghost function Nodes(s: string): nat
    decreases Opens(s), 0
  {
    match ExpandFirst(s)
    case None => 1
    case Some(strs) =>
      if strs == [] then 1
      else
        ShrinksAll(s);
        1 + NodesAll(strs)
  }

  ghost function NodesAll(strs: seq<string>): nat
    decreases MaxOpens(strs), |strs| + 1
  {
    if strs == [] then 0
    else
      MaxOpensRest(strs);
      Nodes(strs[0]) + NodesAll(strs[1..])
  }

  lemma {:induction false} BothAssoc(a: Option<seq<string>>, b: Option<seq<string>>, c: Option<seq<string>>)
    ensures Both(a, Both(b, c)) == Both(Both(a, b), c)
  {
    if a.Some? && b.Some? && c.Some? {
      assert a.value + (b.value + c.value) == (a.value + b.value) + c.value;
    }
  }

  lemma {:induction false} ConcatExpands(a: seq<string>, b: seq<string>)
    ensures ExpandAll(a + b) == Both(ExpandAll(a), ExpandAll(b))
    ensures NodesAll(a + b) == NodesAll(a) + NodesAll(b)
    decreases |a|
  {
    hide ExpandFully, Nodes;
    if a == [] {
      assert a + b == b;
      NoneBefore(ExpandAll(b));
    } else {
      ConcatExpands(a[1..], b);
      assert (a + b)[1..] == a[1..] + b;
      hide Both;
      BothAssoc(ExpandFully(a[0]), ExpandAll(a[1..]), ExpandAll(b));
    }
  }

  lemma NoneBefore(b: Option<seq<string>>)
    ensures Both(Some([]), b) == b
  {
    if b.Some? { assert [] + b.value == b.value; }
  }

  lemma HeadExpands(s: string, rest: seq<string>)
    ensures ExpandAll([s] + rest) == Both(ExpandFully(s), ExpandAll(rest))
    ensures NodesAll([s] + rest) == Nodes(s) + NodesAll(rest) && Nodes(s) > 0
  {
    hide ExpandFirst;
    assert ([s] + rest)[1..] == rest;
  }

  // A string whose first pair expands stands for its expansions.
  lemma ExpandsTo(s: string, strs: seq<string>, rest: seq<string>)
    requires ExpandFirst(s) == Some(strs) && strs != []
    ensures ExpandAll([s] + rest) == ExpandAll(strs + rest) && NodesAll([s] + rest) == 1 + NodesAll(strs + rest)
  {
    HeadExpands(s, rest);
    ConcatExpands(strs, rest);
    hide ExpandFirst, ExpandAll, NodesAll;
  }

  // Nothing is left to expand in the result.
  lemma {:induction false} FullyExpanded(s: string)
    ensures ExpandFully(s).Some? ==> forall e <- ExpandFully(s).value :: ExpandFirst(e) == Some([])
    decreases Opens(s), 0
  {
    hide ExpandFirst, ExpandAll, Opens, MaxOpens;
    if Expands(s) {
      ShrinksAll(s);
      AllExpanded(ExpandFirst(s).value);
    }
  }

  lemma {:induction false} AllExpanded(strs: seq<string>)
    ensures ExpandAll(strs).Some? ==> forall e <- ExpandAll(strs).value :: ExpandFirst(e) == Some([])
    decreases MaxOpens(strs), |strs| + 1
  {
    hide ExpandFirst, ExpandFully, Opens, MaxOpens;
    if strs != [] {
      MaxOpensRest(strs);
      FullyExpanded(strs[0]);
      AllExpanded(strs[1..]);
    }
  }

  predicate Expands(s: string) {
    ExpandFirst(s).Some? && ExpandFirst(s).value != []
  }

  // The loop replaces strings in place and looks at the replacements again; it ends for every
  // list, and equals the recursive expansion.
  method ExpandSquareBrackets(vec: seq<string>) returns (r: Option<seq<string>>, didExpand: bool)
    ensures r == ExpandAll(vec)
    ensures r.Some? ==> forall e <- r.value :: !Expands(e)
    ensures r.Some? ==> (didExpand <==> exists s <- vec :: Expands(s))
  {
    hide ExpandFirst, ExpandAll, NodesAll;
    var list, i := vec, 0;
    didExpand := false;
    assert list[..0] == [] && list[0..] == vec;
    NoneBefore(ExpandAll(vec));
    while i != |list|
      invariant i <= |list| && Both(Some(list[..i]), ExpandAll(list[i..])) == ExpandAll(vec)
      invariant didExpand ==> exists s <- vec :: Expands(s)
      invariant !didExpand ==> list == vec && forall s <- vec[..i] :: !Expands(s)
      decreases NodesAll(list[i..])
    {
      var s, done, rest := list[i], list[..i], list[i + 1..];
      assert list[i..] == [s] + rest && list == done + [s] + rest;
      HeadExpands(s, rest);
      var strs := ExpandSquareBracketsStr(s);
      if strs.None? {
        FailsAll(s);
        return None, didExpand;
      }
      if |strs.value| > 0 {
        ExpandsTo(s, strs.value, rest);
        assert !didExpand ==> s in vec;
        didExpand := true;
        list := done + strs.value + rest;
        assert list[..i] == done && list[i..] == strs.value + rest;
      } else {
        StaysAsItIs(s);
        BothAssoc(Some(done), Some([s]), ExpandAll(rest));
        assert list[..i + 1] == done + [s];
        i := i + 1;
      }
    }
    assert list[i..] == [] && list[..i] == list;
    NothingToExpand();
    assert list + [] == list;
    AllExpanded(vec);
    if !didExpand { assert vec[..i] == vec; }
    return Some(list), didExpand;
  }

  lemma FailsAll(s: string)
    requires ExpandFirst(s).None?
    ensures ExpandFully(s).None?
  {
    hide ExpandFirst;
  }

  lemma StaysAsItIs(s: string)
    requires ExpandFirst(s) == Some([])
    ensures ExpandFully(s) == Some([s])
  {
    hide ExpandFirst;
  }

  lemma NothingToExpand()
    ensures ExpandAll([]) == Some([])
  {
  }
}
