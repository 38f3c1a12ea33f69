/** Weighted mixes of block sizes: parsing, printing and drawing a size. */
module BlockSizeMixes {
  import opened Arith
  import opened Options
  import opened Text
  import opened Word64

  // ---- Numbers as the C library reads them ----

  function SkipPlus(s: string): string {
    if s != "" && s[0] == '+' then s[1..] else s
  }

  const LLONG_MAX: nat := 0x7fff_ffff_ffff_ffff

  // atoll() of text without a minus sign.
  function ReadSigned(s: string): nat {
    var v := ValueOf(LeadingDigits(SkipPlus(SkipSpaces(s))));
    if v > LLONG_MAX then LLONG_MAX else v
  }

  // stoull(): a minus sign negates modulo 2^64.
  function ReadUnsigned(s: string): Option<u64> {
    var t := SkipSpaces(s);
    var minus := t != "" && t[0] == '-';
    var d := LeadingDigits(if minus then t[1..] else SkipPlus(t));
    if d == "" || ValueOf(d) >= WORD then None
    else Some(if minus then (WORD - ValueOf(d)) % WORD else ValueOf(d))
  }

  function UnitOf(c: char): Option<nat> {
    if IsDigit(c) then Some(1)
    else if c == 'K' || c == 'k' then Some(0x400)
    else if c == 'M' || c == 'm' then Some(0x10_0000)
    else if c == 'G' || c == 'g' then Some(0x4000_0000)
    else if c == 'T' || c == 't' then Some(0x100_0000_0000)
    else if c == 'P' || c == 'p' then Some(0x4_0000_0000_0000)
    else if c == 'E' || c == 'e' then Some(0x1000_0000_0000_0000)
    else None
  }

  function SizeOf(s: string): Option<u64> {
    if s == "" || '.' in s || ',' in s || '-' in s then None
    else
      match UnitOf(s[|s| - 1])
      case None => None
      case Some(unit) => Some((ReadSigned(s) * unit) % WORD)
  }

  // ---- Mixes ----

  type Entry = (u64, u64)

  datatype Mix = Mix(sizesAndWeights: seq<Entry>, cumulativeWeights: seq<u64>, totalWeight: u64,
                     maxSize: u64, minSize: u64)

  function EntryOf(s: string): Option<Entry> {
    var parts := Split(s, ":");
    if |parts| > 2 then None
    else
      match SizeOf(parts[0])
      case None => None
      case Some(size) =>
        var weight := if |parts| == 2 then ReadUnsigned(parts[1]) else Some(1);
        if weight.None? || size == 0 || weight.value == 0 then None else Some((size, weight.value))
  }

  predicate HasSize(entries: seq<Entry>, size: u64) {
    exists e <- entries :: e.0 == size
  }

  function Entries(tokens: seq<string>): Option<seq<Entry>> {
    if tokens == [] then Some([])
    else
      match Entries(tokens[..|tokens| - 1])
      case None => None
      case Some(entries) => WithEntry(entries, tokens[|tokens| - 1])
  }

  function WithEntry(entries: seq<Entry>, token: string): Option<seq<Entry>> {
    if token == "" then Some(entries)
    else
      match EntryOf(token)
      case None => None
      case Some(e) => if HasSize(entries, e.0) then None else Some(entries + [e])
  }

  // The sum of the weights, without wrap-around.
  function Sum(entries: seq<Entry>): nat {
    if entries == [] then 0 else Sum(entries[..|entries| - 1]) + entries[|entries| - 1].1
  }

  function Cumulative(entries: seq<Entry>): (c: seq<u64>)
    ensures |c| == |entries|
  {
    seq(|entries|, i requires 0 <= i < |entries| => Sum(entries[..i + 1]) % WORD)
  }

  function MaxOf(entries: seq<Entry>): u64
    requires entries != []
  {
    if |entries| == 1 then entries[0].0
    else
      var m, x := MaxOf(entries[..|entries| - 1]), entries[|entries| - 1].0;
      if m < x then x else m
  }

  function MinOf(entries: seq<Entry>): u64
    requires entries != []
  {
    if |entries| == 1 then entries[0].0
    else
      var m, x := MinOf(entries[..|entries| - 1]), entries[|entries| - 1].0;
      if x < m then x else m
  }

  // The extremes are sizes of the mix and bound all others.
  lemma {:induction false} ExtremesBound(entries: seq<Entry>)
    requires entries != []
    ensures forall e <- entries :: MinOf(entries) <= e.0 <= MaxOf(entries)
    ensures exists e <- entries :: e.0 == MinOf(entries)
    ensures exists e <- entries :: e.0 == MaxOf(entries)
    decreases |entries|
  {
    var init, last := entries[..|entries| - 1], entries[|entries| - 1];
    assert entries == init + [last] && last in entries;
    if init != [] {
      ExtremesBound(init);
      var lo :| lo in init && lo.0 == MinOf(init);
      var hi :| hi in init && hi.0 == MaxOf(init);
      assert lo in entries && hi in entries;
    }
  }

  function MixOf(entries: seq<Entry>): Mix
    requires entries != []
  {
    Mix(entries, Cumulative(entries), Sum(entries) % WORD, MaxOf(entries), MinOf(entries))
  }

  function Parsed(s: string): Option<Mix> {
    match Entries(Split(s, ","))
    case None => None
    case Some(entries) => if entries == [] then None else Some(MixOf(entries))
  }

  lemma WeightStep(entries: seq<Entry>, i: nat)
    requires i < |entries|
    ensures Sum(entries[..i + 1]) == Sum(entries[..i]) + entries[i].1
    ensures (Sum(entries[..i]) % WORD + entries[i].1) % WORD == Sum(entries[..i + 1]) % WORD
    ensures Cumulative(entries)[..i + 1] == Cumulative(entries)[..i] + [Sum(entries[..i + 1]) % WORD]
  {
    assert entries[..i + 1][..i] == entries[..i];
    hide Sum;
    WrapLater(Sum(entries[..i]), entries[i].1);
  }

  lemma WrapLater(a: nat, b: nat)
    ensures (a % WORD + b) % WORD == (a + b) % WORD
  {
    AddMultiple(a % WORD + b, a / WORD, WORD);
  }

  lemma ExtremeStep(entries: seq<Entry>, i: nat)
    requires 0 < i < |entries|
    ensures MaxOf(entries[..i + 1]) == if MaxOf(entries[..i]) < entries[i].0 then entries[i].0 else MaxOf(entries[..i])
    ensures MinOf(entries[..i + 1]) == if entries[i].0 < MinOf(entries[..i]) then entries[i].0 else MinOf(entries[..i])
  {
    assert entries[..i + 1][..i] == entries[..i];
  }

  method ParseEntries(tokens: seq<string>) returns (r: Option<seq<Entry>>)
    ensures r == Entries(tokens)
  {
    hide EntryOf, HasSize;
    var entries: seq<Entry> := [];
    var i := 0;
    while i < |tokens|
      invariant i <= |tokens| && Entries(tokens[..i]) == Some(entries)
    {
      assert tokens[..i + 1][..i] == tokens[..i];
      var token := tokens[i];
      i := i + 1;
      if token == "" {
        continue;
      }
      var e := EntryOf(token);
      if e.None? || HasSize(entries, e.value.0) {
        FailsForGood(tokens, i);
        return None;
      }
      entries := entries + [e.value];
    }
    assert tokens[..|tokens|] == tokens;
    return Some(entries);
  }

  method Weights(entries: seq<Entry>) returns (totalWeight: u64, cumulative: seq<u64>)
    requires entries != []
    ensures totalWeight == Sum(entries) % WORD && cumulative == Cumulative(entries)
  {
    hide Sum, Cumulative;
    StartOfEntries(entries);
    totalWeight, cumulative := 0, [];
    var i := 0;
    while i < |entries|
      invariant i <= |entries| && totalWeight == Sum(entries[..i]) % WORD && cumulative == Cumulative(entries)[..i]
    {
      WeightStep(entries, i);
      totalWeight := (totalWeight + entries[i].1) % WORD;
      cumulative := cumulative + [totalWeight];
      i := i + 1;
    }
    assert entries[..|entries|] == entries && cumulative == Cumulative(entries);
  }

  method Extremes(entries: seq<Entry>) returns (maxSize: u64, minSize: u64)
    requires entries != []
    ensures maxSize == MaxOf(entries) && minSize == MinOf(entries)
  {
    hide MaxOf, MinOf;
    StartOfEntries(entries);
    maxSize, minSize := entries[0].0, entries[0].0;
    var i := 1;
    while i < |entries|
      invariant 1 <= i <= |entries| && maxSize == MaxOf(entries[..i]) && minSize == MinOf(entries[..i])
    {
      ExtremeStep(entries, i);
      maxSize := if maxSize < entries[i].0 then entries[i].0 else maxSize;
      minSize := if entries[i].0 < minSize then entries[i].0 else minSize;
      i := i + 1;
    }
    assert entries[..|entries|] == entries;
  }

  method Parse(s: string) returns (r: Option<Mix>)
    ensures r == Parsed(s)
  {
    hide Entries, Split, Sum, Cumulative, MaxOf, MinOf;
    var entries := ParseEntries(Split(s, ","));
    if entries.None? || entries.value == [] {
      return None;
    }
    var totalWeight, cumulative := Weights(entries.value);
    var maxSize, minSize := Extremes(entries.value);
    return Some(Mix(entries.value, cumulative, totalWeight, maxSize, minSize));
  }

  lemma StartOfEntries(entries: seq<Entry>)
    requires entries != []
    ensures Sum(entries[..0]) == 0 && MaxOf(entries[..1]) == MinOf(entries[..1]) == entries[0].0
    ensures |Cumulative(entries)| == |entries|
  {
  }

  lemma {:induction false} FailsForGood(tokens: seq<string>, n: nat)
    requires n <= |tokens| && Entries(tokens[..n]).None?
    ensures Entries(tokens).None?
    decreases |tokens|
  {
    if n == |tokens| {
      assert tokens[..n] == tokens;
    } else {
      assert tokens[..|tokens| - 1][..n] == tokens[..n];
      FailsForGood(tokens[..|tokens| - 1], n);
    }
  }

  // ---- Printing ----

  function EntryText(e: Entry): string {
    ToText(e.0) + ":" + ToText(e.1)
  }

  function Texts(entries: seq<Entry>): (t: seq<string>)
    ensures |t| == |entries|
  {
    seq(|entries|, i requires 0 <= i < |entries| => EntryText(entries[i]))
  }

  function MixText(entries: seq<Entry>): string {
    if entries == [] then "" else Join(Texts(entries), ',')
  }

  method ToString(m: Mix) returns (s: string)
    ensures s == MixText(m.sizesAndWeights)
  {
    hide EntryText, MixText;
    var entries := m.sizesAndWeights;
    s := "";
    var i := 0;
    MixTextStart(entries);
    while i < |entries|
      invariant i <= |entries| && s == MixText(entries[..i])
    {
      var e := entries[i];
      MixTextStep(entries, i);
      if i > 0 {
        s := s + ",";
      }
      s := s + EntryText(e);
      i := i + 1;
    }
    assert entries[..|entries|] == entries;
  }

  lemma MixTextStart(entries: seq<Entry>)
    ensures MixText(entries[..0]) == ""
  {
  }

  lemma MixTextStep(entries: seq<Entry>, i: nat)
    requires i < |entries|
    ensures MixText(entries[..i + 1]) == MixText(entries[..i]) + (if i > 0 then "," else "") + EntryText(entries[i])
  {
    hide EntryText;
    var e := entries[i];
    assert Texts(entries[..i + 1]) == Texts(entries[..i]) + [EntryText(e)];
    if i > 0 {
      JoinSnoc(Texts(entries[..i]), EntryText(e), ',');
    }
  }

  // ---- The round trip ----

  // A mix that parsing can produce, with sizes that atoll() can represent.
  predicate ValidEntries(entries: seq<Entry>) {
    && (forall e <- entries :: 0 < e.0 <= LLONG_MAX && 0 < e.1)
    && (forall i, j | 0 <= i < j < |entries| :: entries[i].0 != entries[j].0)
  }

  lemma NumberReadBack(n: nat)
    ensures n <= LLONG_MAX ==> SizeOf(ToText(n)) == Some(n)
    ensures n < WORD ==> ReadUnsigned(ToText(n)) == Some(n)
    ensures Free(ToText(n), ",") && Free(ToText(n), ":")
  {
    hide ToText, SizeOf, ReadUnsigned, AllDigits, Free;
    var s := ToText(n);
    TextValue(n);
    DigitsOnly(s);
    PlainSize(s);
    if n < WORD { PlainNumber(s); }
  }

  lemma PlainSize(s: string)
    requires AllDigits(s) && s != ""
    ensures SizeOf(s) == Some(if ValueOf(s) > LLONG_MAX then LLONG_MAX else ValueOf(s))
  {
    hide ValueOf, LeadingDigits, SkipSpaces, SkipPlus, UnitOf, AllDigits;
    DigitsLead(s);
    DigitsOnly(s);
  }

  lemma PlainNumber(s: string)
    requires AllDigits(s) && s != "" && ValueOf(s) < WORD
    ensures ReadUnsigned(s) == Some(ValueOf(s))
  {
    hide ValueOf, LeadingDigits, SkipSpaces, SkipPlus, AllDigits;
    DigitsLead(s);
    DigitsOnly(s);
  }

  lemma DigitsOnly(s: string)
    requires AllDigits(s) && s != ""
    ensures SkipSpaces(s) == s && SkipPlus(s) == s && UnitOf(s[|s| - 1]) == Some(1) && s[0] != '-'
    ensures '.' !in s && ',' !in s && '-' !in s && ':' !in s && Free(s, ",") && Free(s, ":")
  {
    assert s[0] in s && s[|s| - 1] in s;
    assert !IsDigit('.') && !IsDigit(',') && !IsDigit('-') && !IsDigit(':');
  }

  function Kibi(e: nat): nat {
    if e == 0 then 1 else 1024 * Kibi(e - 1)
  }

  lemma UnitIsKibi(c: char, e: nat)
    requires e < 6 && (c == "KMGTPE"[e] || c == "kmgtpe"[e])
    ensures UnitOf(c) == Some(Kibi(e + 1)) && !IsDigit(c) && c != '.' && c != ',' && c != '-' && c != ':'
  {
    assert Kibi(1) == 0x400 && Kibi(2) == 0x10_0000 && Kibi(3) == 0x4000_0000;
    assert Kibi(4) == 1024 * Kibi(3) && Kibi(5) == 1024 * Kibi(4) && Kibi(6) == 1024 * Kibi(5);
    hide Kibi;
    assert e == 0 || e == 1 || e == 2 || e == 3 || e == 4 || e == 5;
  }

  // Each unit suffix is another factor of 1024, as far as the size is below 2^64.
  lemma SizeWithUnit(d: string, c: char, e: nat)
    requires d != "" && AllDigits(d) && ValueOf(d) <= LLONG_MAX && e < 6 && (c == "KMGTPE"[e] || c == "kmgtpe"[e])
    ensures SizeOf(d + [c]) == Some((ValueOf(d) * Kibi(e + 1)) % WORD)
    ensures SizeOf(d) == Some(ValueOf(d))
  {
    UnitIsKibi(c, e);
    PlainSize(d);
    var s := d + [c];
    DigitsOnly(d);
    hide ValueOf, LeadingDigits, UnitOf, Kibi;
    DigitsLeadText(d, [c]);
    assert d[0] in d && s[0] == d[0];
    assert SkipPlus(SkipSpaces(s)) == s;
  }

  // Without a weight an entry has weight 1.
  lemma EntryWithoutWeight(s: string)
    requires ':' !in s
    ensures EntryOf(s) == match SizeOf(s)
                          case None => None
                          case Some(size) => if size == 0 then None else Some((size, 1))
  {
    hide SizeOf, Split;
    assert Free(s, ":");
    SplitOne(s, ":");
  }

  lemma TwoParts(s: string, d: string)
    requires ':' !in s && d != "" && AllDigits(d)
    ensures Split(s + ":" + d, ":") == [s, d]
  {
    DigitsOnly(d);
    assert d[0] in d;
    hide Split;
    SplitOne(d, ":");
    SplitRun(s, ":", d, ":");
  }

  // And with one it has that weight, which must not be 0.
  lemma EntryWithWeight(s: string, d: string)
    requires ':' !in s && d != "" && AllDigits(d) && ValueOf(d) < WORD
    ensures EntryOf(s + ":" + d) == match SizeOf(s)
                                    case None => None
                                    case Some(size) =>
                                      if size == 0 || ValueOf(d) == 0 then None else Some((size, ValueOf(d)))
  {
    hide SizeOf, Split, ReadUnsigned, ValueOf, AllDigits;
    PlainNumber(d);
    TwoParts(s, d);
  }

  lemma EntryReadBack(e: Entry)
    requires 0 < e.0 <= LLONG_MAX && 0 < e.1
    ensures EntryOf(EntryText(e)) == Some(e) && EntryText(e) != "" && Free(EntryText(e), ",")
  {
    hide ToText, SizeOf, ReadUnsigned, Split, Join;
    NumberReadBack(e.0);
    NumberReadBack(e.1);
    TextValue(e.1);
    EntryWithWeight(ToText(e.0), ToText(e.1));
  }

  lemma {:induction false} EntriesReadBack(entries: seq<Entry>)
    requires ValidEntries(entries)
    ensures Entries(Texts(entries)) == Some(entries)
    ensures Words(Texts(entries), ",")
    decreases |entries|
  {
    hide EntryOf, EntryText, Free;
    if entries != [] {
      var init, e := entries[..|entries| - 1], entries[|entries| - 1];
      assert entries == init + [e] && e in entries;
      EntriesReadBack(init);
      EntryReadBack(e);
      assert Texts(entries) == Texts(init) + [EntryText(e)];
      assert Texts(entries)[..|entries| - 1] == Texts(init);
      assert !HasSize(init, e.0);
    }
  }

  // Printing a mix and parsing it again gives the same mix.
  lemma ParseUndoesPrint(entries: seq<Entry>)
    requires entries != [] && ValidEntries(entries)
    ensures Parsed(MixText(entries)) == Some(MixOf(entries))
  {
    hide Entries, Split, Join, Texts, Words;
    EntriesReadBack(entries);
    SplitJoin(Texts(entries), ',', ",");
  }

  // ---- Drawing ----

  // The entry drawn for the residue d: the first whose cumulative weight exceeds it.
  function DrawFrom(m: Mix, d: nat, i: nat): (k: nat)
    requires |m.cumulativeWeights| == |m.sizesAndWeights| > 0 && i <= |m.cumulativeWeights|
    ensures k < |m.sizesAndWeights|
    decreases |m.cumulativeWeights| - i
  {
    if i == |m.cumulativeWeights| then |m.sizesAndWeights| - 1
    else if d < m.cumulativeWeights[i] then i
    else DrawFrom(m, d, i + 1)
  }

  predicate IsMix(m: Mix) {
    |m.sizesAndWeights| > 1
  }

  method GetNextSize(m: Mix, random: u64) returns (size: u64)
    requires |m.cumulativeWeights| == |m.sizesAndWeights| > 0
    requires IsMix(m) ==> m.totalWeight > 0
    ensures size == if IsMix(m) then m.sizesAndWeights[DrawFrom(m, random % m.totalWeight, 0)].0 else m.maxSize
  {
    if !IsMix(m) {
      return m.maxSize;
    }
    var drawn := random % m.totalWeight;
    var i := 0;
    while i < |m.cumulativeWeights|
      invariant i <= |m.cumulativeWeights| && DrawFrom(m, drawn, 0) == DrawFrom(m, drawn, i)
    {
      if drawn < m.cumulativeWeights[i] {
        return m.sizesAndWeights[i].0;
      }
      i := i + 1;
    }
    return m.sizesAndWeights[|m.sizesAndWeights| - 1].0;
  }

  // How many of the residues below n draw entry k.
  function CountDraws(m: Mix, k: nat, n: nat): nat
    requires |m.cumulativeWeights| == |m.sizesAndWeights| > 0
  {
    if n == 0 then 0 else CountDraws(m, k, n - 1) + if DrawFrom(m, n - 1, 0) == k then 1 else 0
  }

  lemma {:induction false} SumGrows(entries: seq<Entry>, i: nat, j: nat)
    requires i <= j <= |entries|
    ensures Sum(entries[..i]) <= Sum(entries[..j])
    decreases j
  {
    if i < j {
      assert entries[..j][..j - 1] == entries[..j - 1];
      SumGrows(entries, i, j - 1);
    }
  }

  // Entry k is drawn exactly for the residues between the weights before it and those up to it.
  lemma {:induction false} DrawnInterval(entries: seq<Entry>, d: nat, k: nat, i: nat)
    requires entries != [] && Sum(entries) < WORD && d < Sum(entries) && i <= k < |entries|
    requires Sum(entries[..i]) <= d
    ensures DrawFrom(MixOf(entries), d, i) == k <==> Sum(entries[..k]) <= d < Sum(entries[..k + 1])
    decreases |entries| - i
  {
    hide Sum, MaxOf, MinOf;
    var c := MixOf(entries).cumulativeWeights;
    assert entries[..|entries|] == entries;
    SumGrows(entries, i + 1, |entries|);
    assert c[i] == Sum(entries[..i + 1]);
    if d < c[i] {
      if i < k { SumGrows(entries, i + 1, k); }
    } else if i == k {
      DrawnLater(entries, d, i + 1);
    } else {
      DrawnInterval(entries, d, k, i + 1);
    }
  }

  lemma DrawnLater(entries: seq<Entry>, d: nat, i: nat)
    requires entries != [] && d < Sum(entries) && i <= |entries| && Sum(entries[..i]) <= d
    ensures DrawFrom(MixOf(entries), d, i) >= i
  {
    assert entries[..|entries|] == entries;
    DrawFromBound(MixOf(entries), d, i);
  }

  lemma {:induction false} DrawFromBound(m: Mix, d: nat, i: nat)
    requires |m.cumulativeWeights| == |m.sizesAndWeights| > i
    ensures DrawFrom(m, d, i) >= i
    decreases |m.cumulativeWeights| - i
  {
    if i + 1 < |m.cumulativeWeights| { DrawFromBound(m, d, i + 1); }
  }

  lemma {:induction false} DrawsBelow(entries: seq<Entry>, k: nat, n: nat)
    requires entries != [] && Sum(entries) < WORD && n <= Sum(entries) && k < |entries|
    ensures CountDraws(MixOf(entries), k, n) == Between(Sum(entries[..k]), Sum(entries[..k + 1]), n)
    decreases n
  {
    hide MixOf, Sum, DrawFrom;
    WeightStep(entries, k);
    if n > 0 {
      DrawsBelow(entries, k, n - 1);
      assert Sum(entries[..0]) == 0 by { StartOfEntries(entries); }
      DrawnInterval(entries, n - 1, k, 0);
    }
  }

  // The number of values below n in the interval from lo to hi.
  function Between(lo: nat, hi: nat, n: nat): int {
    if n <= lo then 0 else if n < hi then n - lo else hi - lo
  }

  // ---- Every residue draws one entry ----

  function AllDraws(m: Mix, ks: nat, n: nat): nat
    requires |m.cumulativeWeights| == |m.sizesAndWeights| > 0
  {
    if ks == 0 then 0 else AllDraws(m, ks - 1, n) + CountDraws(m, ks - 1, n)
  }

  lemma {:induction false} AllDrawsStep(m: Mix, ks: nat, n: nat)
    requires |m.cumulativeWeights| == |m.sizesAndWeights| > 0 && n > 0
    ensures AllDraws(m, ks, n) == AllDraws(m, ks, n - 1) + if DrawFrom(m, n - 1, 0) < ks then 1 else 0
    decreases ks
  {
    hide DrawFrom;
    if ks > 0 { AllDrawsStep(m, ks - 1, n); }
  }

  lemma {:induction false} EveryResidueDraws(m: Mix, n: nat)
    requires |m.cumulativeWeights| == |m.sizesAndWeights| > 0
    ensures AllDraws(m, |m.sizesAndWeights|, n) == n
    decreases n
  {
    hide DrawFrom, AllDraws;
    if n > 0 {
      EveryResidueDraws(m, n - 1);
      AllDrawsStep(m, |m.sizesAndWeights|, n);
    } else {
      NoDraws(m, |m.sizesAndWeights|);
    }
  }

  lemma {:induction false} NoDraws(m: Mix, ks: nat)
    requires |m.cumulativeWeights| == |m.sizesAndWeights| > 0
    ensures AllDraws(m, ks, 0) == 0
  {
    if ks > 0 { NoDraws(m, ks - 1); }
  }

  lemma {:induction false} WeightsAddUp(entries: seq<Entry>, ks: nat, n: nat)
    requires entries != [] && ks <= |entries|
    requires forall k | 0 <= k < |entries| :: CountDraws(MixOf(entries), k, n) == entries[k].1
    ensures AllDraws(MixOf(entries), ks, n) == Sum(entries[..ks])
    decreases ks
  {
    hide MixOf, CountDraws;
    if ks > 0 {
      WeightsAddUp(entries, ks - 1, n);
      WeightStep(entries, ks - 1);
    }
  }

  predicate DrawsByWeight(entries: seq<Entry>)
    requires entries != []
  {
    var m := MixOf(entries);
    forall k | 0 <= k < |entries| :: CountDraws(m, k, m.totalWeight) == entries[k].1
  }

  // Of the totalWeight residues, each entry is drawn by exactly as many as its weight - if and
  // only if the sum of the weights stays below 2^64.
  lemma DrawsFollowWeights(entries: seq<Entry>)
    requires entries != []
    ensures DrawsByWeight(entries) <==> Sum(entries) < WORD
  {
    hide Sum, CountDraws;
    var m := MixOf(entries);
    assert entries[..|entries|] == entries;
    if Sum(entries) < WORD {
      forall k | 0 <= k < |entries| ensures CountDraws(m, k, m.totalWeight) == entries[k].1 {
        DrawsBelow(entries, k, Sum(entries));
        WeightStep(entries, k);
        SumGrows(entries, k + 1, |entries|);
      }
    }
    if DrawsByWeight(entries) {
      WeightsAddUp(entries, |entries|, m.totalWeight);
      EveryResidueDraws(m, m.totalWeight);
    }
  }

  // Two weights of 2^63 are accepted, and leave a total weight of zero.
  lemma WeightsCanVanish()
    ensures var entries: seq<Entry> := [(1, 0x8000_0000_0000_0000), (2, 0x8000_0000_0000_0000)];
      ValidEntries(entries) && MixOf(entries).totalWeight == 0
  {
    var entries: seq<Entry> := [(1, 0x8000_0000_0000_0000), (2, 0x8000_0000_0000_0000)];
    assert entries[..1] == [(1, 0x8000_0000_0000_0000)];
    assert entries[..1][..0] == [];
    assert Sum(entries) == WORD;
  }
}
