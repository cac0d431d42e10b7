/** FAT short names: direct 8.3 encodings, numbered aliases, and the case flags beside them. */
module FatNames {

  const STEM_WIDTH := 8
  const EXTENSION_WIDTH := 3
  const NAME_WIDTH := 11
  const SEQUENCE_LIMIT := 1_000_000

  predicate Letter(c: char) { 'a' <= c <= 'z' }

  predicate Digit(c: char) { '0' <= c <= '9' }

  predicate Capital(c: char) { 'A' <= c <= 'Z' }

  predicate Alnum(c: char) { Letter(c) || Digit(c) || Capital(c) }

  function Upper(c: char): char { if Letter(c) then ((c as int) - 32) as char else c }

  function LowerCase(c: char): char { if Capital(c) then ((c as int) + 32) as char else c }

  function Uppers(s: string): (u: string)
    ensures |u| == |s| && forall i :: 0 <= i < |s| ==> u[i] == Upper(s[i])
  {
    seq(|s|, i requires 0 <= i < |s| => Upper(s[i]))
  }

  function Spaces(n: nat): (s: string)
    ensures |s| == n && forall i :: 0 <= i < n ==> s[i] == ' '
  {
    seq(n, _ => ' ')
  }

  function Padded(s: string, width: nat): string {
    if |s| < width then s + Spaces(width - |s|) else s
  }

  /** Where c first stands in s, or the end. */
  function First(s: string, c: char, from: nat): (i: nat)
    requires from <= |s|
    ensures from <= i <= |s| && (i < |s| ==> s[i] == c)
    ensures forall k :: from <= k < i ==> s[k] != c
    decreases |s| - from
  {
    if from == |s| || s[from] == c then from else First(s, c, from + 1)
  }

  /** Where c last stands before to, or -1. */
  function Last(s: string, c: char, to: nat): (i: int)
    requires to <= |s|
    ensures -1 <= i < to && (i >= 0 ==> s[i] == c)
    ensures forall k :: i < k < to ==> s[k] != c
  {
    if to == 0 then -1 else if s[to - 1] == c then to - 1 else Last(s, c, to - 1)
  }

  /** ASCII without capitals: what the source's lower-case test lets through. */
  predicate Plain(s: string) {
    s != "" && forall i :: 0 <= i < |s| ==> s[i] < 128 as char && !Capital(s[i])
  }

  predicate Forbidden(c: char) { c < 0x20 as char || c in "\\\"*/:<>?|" }

  predicate ValidComponent(s: string) {
    && Plain(s) && |s| <= 255 && s[|s| - 1] != ' ' && s[|s| - 1] != '.'
    && forall i :: 0 <= i < |s| ==> !Forbidden(s[i])
  }

  predicate ShortChar(c: char) { Alnum(c) || c in "!#$%&'()-@^_`{}~" }

  predicate ShortChars(s: string) { forall i :: 0 <= i < |s| ==> ShortChar(s[i]) }

  function Stem(s: string): string { s[..First(s, '.', 0)] }

  function Extension(s: string): string {
    var dot := First(s, '.', 0);
    if dot < |s| then s[dot + 1..] else ""
  }

  /** The component has an 8.3 name of its own. */
  predicate IsShort(s: string) {
    && Plain(s) && 0 < |Stem(s)| <= STEM_WIDTH && |Extension(s)| <= EXTENSION_WIDTH
    && (|Stem(s)| < |s| ==> 0 < |Extension(s)|)
    && ShortChars(Stem(s)) && ShortChars(Extension(s))
  }

  function ShortName(s: string): (n: string)
    requires IsShort(s)
    ensures |n| == NAME_WIDTH
  {
    Padded(Uppers(Stem(s)), STEM_WIDTH) + Padded(Uppers(Extension(s)), EXTENSION_WIDTH)
  }

  /** Bytes that can stand in a directory: eleven ASCII characters that look neither free nor like a dot entry. */
  predicate Storable(n: string) {
    |n| == NAME_WIDTH && n[0] != ' ' && n[0] != '.' && Printable(n)
  }

  predicate Printable(n: string) { forall i :: 0 <= i < |n| ==> ' ' <= n[i] < 128 as char }

  lemma PaddedPrintable(s: string, width: nat)
    requires forall i :: 0 <= i < |s| ==> ShortChar(s[i])
    ensures Printable(Padded(Uppers(s), width))
  {
  }

  lemma ShortStorable(s: string)
    requires IsShort(s)
    ensures Storable(ShortName(s))
  {
    PaddedPrintable(Stem(s), STEM_WIDTH);
    PaddedPrintable(Extension(s), EXTENSION_WIDTH);
    assert ShortChar(Stem(s)[0]);
    assert ShortName(s)[0] == Upper(Stem(s)[0]);
  }

  // ----- Reading a short name back

  predicate HasLetter(s: string) { exists i :: 0 <= i < |s| && Letter(s[i]) }

  /** Bit 3 asks for a lower-case stem, bit 4 for a lower-case extension. */
  datatype CaseFlags = CaseFlags(stem: bool, extension: bool)

  function NtCase(s: string): CaseFlags {
    CaseFlags(HasLetter(Stem(s)), '.' !in Extension(s) && HasLetter(Extension(s)))
  }

  function Trimmed(s: string): string { s[..First(s, ' ', 0)] }

  function Cased(s: string, lower: bool): (r: string)
    ensures |r| == |s| && forall i :: 0 <= i < |s| ==> r[i] == if lower then LowerCase(s[i]) else s[i]
  {
    seq(|s|, i requires 0 <= i < |s| => if lower then LowerCase(s[i]) else s[i])
  }

  /** The name a directory listing shows for a short name and its case flags. */
  function Shown(n: string, flags: CaseFlags): string
    requires |n| == NAME_WIDTH
  {
    var stem := Cased(Trimmed(n[..STEM_WIDTH]), flags.stem);
    var extension := Cased(Trimmed(n[STEM_WIDTH..]), flags.extension);
    if extension == "" then stem else stem + "." + extension
  }

  /** The first c is where c stands and nothing before it is c. */
  lemma FirstIs(s: string, c: char, from: nat, at: nat)
    requires from <= at <= |s| && (at < |s| ==> s[at] == c) && forall k :: from <= k < at ==> s[k] != c
    ensures First(s, c, from) == at
  {
  }

  lemma PartReadsBack(s: string, width: nat, lower: bool)
    requires |s| <= width && ShortChars(s) && (HasLetter(s) ==> lower) && forall i :: 0 <= i < |s| ==> !Capital(s[i])
    ensures |Padded(Uppers(s), width)| == width && Cased(Trimmed(Padded(Uppers(s), width)), lower) == s
  {
    var p := Padded(Uppers(s), width);
    forall i | 0 <= i < |s| ensures p[i] != ' ' {
      assert ShortChar(s[i]);
    }
    FirstIs(p, ' ', 0, |s|);
  }

  lemma Halves(a: string, b: string)
    ensures (a + b)[..|a|] == a && (a + b)[|a|..] == b
  {
  }

  lemma SplitAtDot(s: string)
    ensures s == if |Stem(s)| < |s| then Stem(s) + "." + Extension(s) else Stem(s)
  {
  }

  lemma CasedReadsBack(s: string, flags: CaseFlags)
    requires IsShort(s) && (NtCase(s).stem ==> flags.stem) && (NtCase(s).extension ==> flags.extension)
    ensures Shown(ShortName(s), flags) == s
  {
    var stem, extension := Stem(s), Extension(s);
    PartReadsBack(stem, STEM_WIDTH, flags.stem);
    PartReadsBack(extension, EXTENSION_WIDTH, flags.extension);
    Halves(Padded(Uppers(stem), STEM_WIDTH), Padded(Uppers(extension), EXTENSION_WIDTH));
    SplitAtDot(s);
  }

  /** A component with an 8.3 name of its own is shown exactly as it was given. */
  lemma ShortNameReadsBack(s: string)
    requires IsShort(s)
    ensures Shown(ShortName(s), NtCase(s)) == s
  {
    CasedReadsBack(s, NtCase(s));
  }

  /** Short names of different components differ, even without the case flags. */
  lemma ShortNameInjective(s: string, t: string)
    requires IsShort(s) && IsShort(t) && ShortName(s) == ShortName(t)
    ensures s == t
  {
    CasedReadsBack(s, CaseFlags(true, true));
    CasedReadsBack(t, CaseFlags(true, true));
  }

  // ----- Numbered aliases

  function DigitChar(d: int): (c: char)
    requires 0 <= d < 10
    ensures Digit(c) && (c as int) - ('0' as int) == d
  {
    (('0' as int) + d) as char
  }

  function Decimal(n: nat): (s: string)
    ensures |s| >= 1 && forall i :: 0 <= i < |s| ==> Digit(s[i])
  {
    if n < 10 then [DigitChar(n)] else Decimal(n / 10) + [DigitChar(n % 10)]
  }

  lemma {:induction false} DecimalInjective(m: nat, n: nat)
    requires Decimal(m) == Decimal(n)
    ensures m == n
  {
    var s := Decimal(m);
    assert (s[|s| - 1] as int) - ('0' as int) == m % 10 == n % 10;
    if |s| > 1 {
      assert Decimal(m / 10) == s[..|s| - 1] == Decimal(n / 10);
      DecimalInjective(m / 10, n / 10);
    }
  }

  /** Six digits are enough for every sequence number. */
  lemma DecimalShort(n: nat)
    requires n < SEQUENCE_LIMIT
    ensures |Decimal(n)| <= 6
  {
    DecimalWidth(n, 6, SEQUENCE_LIMIT);
  }

  lemma {:induction false} DecimalWidth(n: nat, width: nat, limit: nat)
    requires n < limit && 1 <= width && limit == Power10(width)
    ensures |Decimal(n)| <= width
  {
    if n >= 10 {
      DecimalWidth(n / 10, width - 1, limit / 10);
    }
  }

  function Power10(n: nat): nat { if n == 0 then 1 else 10 * Power10(n - 1) }

  function Filtered(s: string): (r: string)
    ensures |r| <= |s| && forall i :: 0 <= i < |r| ==> Alnum(r[i])
  {
    if s == "" then "" else if Alnum(s[0]) then [s[0]] + Filtered(s[1..]) else Filtered(s[1..])
  }

  function Take(s: string, n: nat): string { if |s| < n then s else s[..n] }

  /** Stem and extension of an alias: what is alphanumeric before and after the last dot. */
  function CleanStem(s: string): (r: string)
    ensures r != "" && forall i :: 0 <= i < |r| ==> Alnum(r[i]) || r[i] == '_'
  {
    var dot := Last(s, '.', |s|);
    var clean := Filtered(if dot > 0 then s[..dot] else s);
    if clean == "" then "_" else clean
  }

  function CleanExtension(s: string): (r: string)
    ensures |r| <= EXTENSION_WIDTH && forall i :: 0 <= i < |r| ==> Alnum(r[i])
  {
    var dot := Last(s, '.', |s|);
    Take(Filtered(if dot > 0 then s[dot + 1..] else ""), EXTENSION_WIDTH)
  }

  function Base(stem: string, k: nat): string
    requires |Decimal(k)| <= 6
  {
    var suffix := "~" + Decimal(k);
    Padded(Uppers(Take(stem, STEM_WIDTH - |suffix|) + suffix), STEM_WIDTH)
  }

  /** The k-th alias that is tried for a component. */
  function Alias(s: string, k: nat): (n: string)
    requires |Decimal(k)| <= 6
    ensures |n| == NAME_WIDTH
  {
    Base(CleanStem(s), k) + Padded(Uppers(CleanExtension(s)), EXTENSION_WIDTH)
  }

  lemma HeadAndSuffix(head: string, suffix: string)
    requires ShortChars(head) && ShortChars(suffix)
    ensures Printable(Padded(Uppers(head + suffix), STEM_WIDTH))
  {
    PaddedPrintable(head + suffix, STEM_WIDTH);
  }

  lemma AliasStorable(s: string, k: nat)
    requires |Decimal(k)| <= 6
    ensures Storable(Alias(s, k))
  {
    var suffix := "~" + Decimal(k);
    var head := Take(CleanStem(s), STEM_WIDTH - |suffix|);
    HeadAndSuffix(head, suffix);
    PaddedPrintable(CleanExtension(s), EXTENSION_WIDTH);
    assert Alias(s, k)[0] == Upper(head[0]) && head[0] == CleanStem(s)[0];
  }

  predicate Tildeless(stem: string) {
    stem != "" && forall i :: 0 <= i < |stem| ==> Alnum(stem[i]) || stem[i] == '_'
  }

  /** A base is a stem, the only tilde, the digits, and spaces. */
  lemma BaseShape(stem: string, k: nat) returns (t: nat)
    requires Tildeless(stem) && |Decimal(k)| <= 6
    ensures t + 1 + |Decimal(k)| <= STEM_WIDTH && |Base(stem, k)| == STEM_WIDTH
    ensures First(Base(stem, k), '~', 0) == t && First(Base(stem, k), ' ', t) == t + 1 + |Decimal(k)|
    ensures Base(stem, k)[t + 1..t + 1 + |Decimal(k)|] == Decimal(k)
  {
    var b, d := Base(stem, k), Decimal(k);
    var head := Uppers(Take(stem, STEM_WIDTH - 1 - |d|));
    t := |head|;
    UppersSplit(Take(stem, STEM_WIDTH - 1 - |d|), d);
    BaseParts(head, d, b);
    FirstIs(b, '~', 0, t);
    FirstIs(b, ' ', t, t + 1 + |d|);
  }

  lemma UppersSplit(head: string, d: string)
    requires forall i :: 0 <= i < |d| ==> Digit(d[i])
    ensures Uppers(head + ("~" + d)) == Uppers(head) + ("~" + d)
  {
    assert ("~" + d)[0] == '~';
  }

  lemma BaseParts(head: string, d: string, b: string)
    requires |head| + 1 + |d| <= STEM_WIDTH && b == Padded(head + ("~" + d), STEM_WIDTH)
    requires forall i :: 0 <= i < |head| ==> head[i] != '~'
    requires forall i :: 0 <= i < |d| ==> Digit(d[i])
    ensures |b| == STEM_WIDTH
    ensures forall i :: 0 <= i < |head| ==> b[i] != '~'
    ensures b[|head|] == '~' && b[|head| + 1..|head| + 1 + |d|] == d
    ensures forall i :: |head| <= i < |head| + 1 + |d| ==> b[i] != ' '
    ensures forall i :: |head| + 1 + |d| <= i < STEM_WIDTH ==> b[i] == ' '
  {
    var u, n := head + ("~" + d), |head| + 1;
    assert b[..|u|] == u && u[n..] == d;
    assert forall i :: 0 <= i < n ==> b[i] == u[i];
    assert forall i :: n <= i < n + |d| ==> b[i] == d[i - n];
  }

  lemma AliasBase(s: string, k: nat)
    requires |Decimal(k)| <= 6
    ensures |Alias(s, k)| >= STEM_WIDTH && Alias(s, k)[..STEM_WIDTH] == Base(CleanStem(s), k)
  {
    var tilde := BaseShape(CleanStem(s), k);
  }

  /** Different sequence numbers give different aliases. */
  lemma AliasInjective(s: string, j: nat, k: nat)
    requires |Decimal(j)| <= 6 && |Decimal(k)| <= 6 && Alias(s, j) == Alias(s, k)
    ensures j == k
  {
    var stem := CleanStem(s);
    var tj := BaseShape(stem, j);
    var tk := BaseShape(stem, k);
    AliasBase(s, j);
    AliasBase(s, k);
    DecimalInjective(j, k);
  }

  // ----- Choosing a name that is still free

  datatype NameResult = Named(short: string, long: bool) | Invalid | Exhausted

  predicate InRange(k: nat) { 1 <= k < SEQUENCE_LIMIT }

  /** The k-th alias, for the sequence numbers the source tries. */
  function AliasOf(s: string, k: nat): (n: string)
    requires InRange(k)
    ensures |n| == NAME_WIDTH
  {
    DecimalShort(k);
    Alias(s, k)
  }

  /** All aliases before the k-th are taken. */
  ghost predicate TakenBefore(s: string, k: nat, used: set<string>)
    requires k <= SEQUENCE_LIMIT
  {
    forall j :: 1 <= j < k ==> AliasOf(s, j) in used
  }

  /** Aliases never repeat, so k of them take up k names. */
  lemma {:induction false} AliasesCount(s: string, k: nat, used: set<string>)
    requires 1 <= k <= SEQUENCE_LIMIT && TakenBefore(s, k, used)
    ensures k - 1 <= |used|
  {
    if k > 1 {
      var last := AliasOf(s, k - 1);
      forall j | 1 <= j < k - 1 ensures AliasOf(s, j) in used - {last} {
        if AliasOf(s, j) == last {
          DecimalShort(j);
          DecimalShort(k - 1);
          AliasInjective(s, j, k - 1);
        }
      }
      AliasesCount(s, k - 1, used - {last});
    }
  }

  /** The component has no 8.3 name of its own, or another entry has it. */
  predicate NeedsAlias(s: string, used: set<string>) { !IsShort(s) || ShortName(s) in used }

  /** The first free alias from the k-th on; empty when all are taken. */
  ghost function FreeAlias(s: string, used: set<string>, k: nat): string
    requires 1 <= k <= SEQUENCE_LIMIT
    decreases SEQUENCE_LIMIT - k
  {
    if k == SEQUENCE_LIMIT then ""
    else if AliasOf(s, k) !in used then AliasOf(s, k)
    else FreeAlias(s, used, k + 1)
  }

  /** The short name a directory with these names in use gives a component. */
  ghost function ChosenName(s: string, used: set<string>): string {
    if NeedsAlias(s, used) then FreeAlias(s, used, 1) else ShortName(s)
  }

  lemma {:induction false} FreeAliasIs(s: string, used: set<string>, j: nat, k: nat)
    requires 1 <= j <= k < SEQUENCE_LIMIT && TakenBefore(s, k, used) && AliasOf(s, k) !in used
    ensures FreeAlias(s, used, j) == AliasOf(s, k)
    decreases k - j
  {
    if j < k {
      FreeAliasIs(s, used, j + 1, k);
    }
  }

  /** With few names in use the chosen name is the component's own or one of its aliases, and is not in use. */
  lemma ChosenIsFresh(s: string, used: set<string>)
    requires |used| < SEQUENCE_LIMIT - 1
    ensures ChosenName(s, used) !in used
    ensures NeedsAlias(s, used) ==> exists k: nat :: InRange(k) && ChosenName(s, used) == AliasOf(s, k)
  {
    if NeedsAlias(s, used) {
      var k := FirstFreeNumber(s, used, 1);
      FreeAliasIs(s, used, 1, k);
    }
  }

  lemma {:induction false} FirstFreeNumber(s: string, used: set<string>, j: nat) returns (k: nat)
    requires 1 <= j <= SEQUENCE_LIMIT && TakenBefore(s, j, used) && |used| < SEQUENCE_LIMIT - 1
    ensures 1 <= k < SEQUENCE_LIMIT && TakenBefore(s, k, used) && AliasOf(s, k) !in used
    decreases SEQUENCE_LIMIT - j
  {
    AliasesCount(s, j, used);
    if AliasOf(s, j) !in used {
      k := j;
    } else {
      k := FirstFreeNumber(s, used, j + 1);
    }
  }

  /** The name given: not in use, and the one that was to be chosen. */
  ghost predicate FreshName(s: string, used: set<string>, r: NameResult)
    requires r.Named?
  {
    && Storable(r.short) && r.short !in used
    && r.short == ChosenName(s, used) && (r.long <==> NeedsAlias(s, used))
    && (r.long ==> exists k: nat :: InRange(k) && k <= |used| + 1 && r.short == AliasOf(s, k) && TakenBefore(s, k, used))
  }

  /** Tries the aliases in order. */
  method FindAlias(s: string, used: set<string>) returns (sequence: nat)
    ensures 1 <= sequence <= SEQUENCE_LIMIT && sequence <= |used| + 1 && TakenBefore(s, sequence, used)
    ensures sequence < SEQUENCE_LIMIT ==> AliasOf(s, sequence) !in used
  {
    sequence := 1;
    while sequence < SEQUENCE_LIMIT && AliasOf(s, sequence) in used
      invariant 1 <= sequence <= SEQUENCE_LIMIT && TakenBefore(s, sequence, used)
    {
      sequence := sequence + 1;
    }
    AliasesCount(s, sequence, used);
  }

  /** With fewer than a million names in use one of the first |used| + 1 aliases is free. */
  method DiskName(s: string, used: set<string>) returns (r: NameResult)
    ensures r.Invalid? <==> !ValidComponent(s)
    ensures r.Named? ==> FreshName(s, used, r)
    ensures |used| < SEQUENCE_LIMIT - 1 ==> !r.Exhausted?
  {
    if !ValidComponent(s) { return Invalid; }
    if IsShort(s) && ShortName(s) !in used {
      ShortStorable(s);
      return Named(ShortName(s), false);
    }
    var sequence := FindAlias(s, used);
    if sequence == SEQUENCE_LIMIT { return Exhausted; }
    DecimalShort(sequence);
    AliasStorable(s, sequence);
    FreeAliasIs(s, used, 1, sequence);
    r := Named(AliasOf(s, sequence), true);
  }
}
