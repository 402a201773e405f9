/** The configuration file: a parser over text, and a class whose fields it fills in. Text is what
    comes before the terminating NUL. */
module Config {
  import opened Bytes

  const MAX_ENTRIES: nat := 16
  // one above the largest value of the field for the number of attempts
  const MAX_INT: nat := 0x8000_0000
  const MAX_STR_LEN: nat := 256
  const MAX_KEY_LEN: nat := 64
  const DEFAULT_TIMEOUT: nat := 5
  const DEFAULT_THEME: nat := 5
  const DEFAULT_ACCENT: nat := 14
  const DEFAULT_TRIES: nat := 3

  datatype OSType = Elf64 | Linux | Multiboot2 | UefiShell | Windows | Unknown

  datatype BootEntry = BootEntry(
    name: string, osType: OSType, kernel: string, initrd: string, cmdline: string,
    encrypted: nat, luksKeyfile: string, luksTries: nat)
  {
    // Every string ends inside its field.
    predicate Fits() {
      |name| < 256 && |kernel| < 256 && |initrd| < 256 && |cmdline| < 256 && |luksKeyfile| < 256
    }
  }

  datatype Settings = Settings(
    timeout: nat, defaultEntry: nat, themeColor: nat, accentColor: nat, entries: seq<BootEntry>)
  {
    predicate Valid() {
      && timeout < U32 && defaultEntry < U32 && themeColor <= 7 && accentColor <= 15
      && |entries| <= 16 && forall i :: 0 <= i < |entries| ==> entries[i].Fits()
    }

    predicate DefaultInRange() {
      entries != [] ==> defaultEntry < |entries|
    }
  }

  datatype KeyValue = KeyValue(key: string, val: string)

  // ---- Characters ----

  predicate IsSpace(c: char) { c == ' ' || c == '\t' }
  predicate IsNewline(c: char) { c == '\n' || c == '\r' }
  predicate NotSpace(c: char) { !IsSpace(c) }
  predicate NotBlank(c: char) { !IsSpace(c) && !IsNewline(c) }
  predicate EndsKey(c: char) { IsSpace(c) || c == '=' || IsNewline(c) }
  predicate EndsName(c: char) { c == ']' || IsNewline(c) }
  predicate IsBracket(c: char) { c == ']' }
  predicate NotDigit(c: char) { !('0' <= c <= '9') }

  // The number of characters before the first that stops the scan.
  function Span(s: string, stop: char -> bool): (n: nat)
    ensures n <= |s| && (forall i :: 0 <= i < n ==> !stop(s[i])) && (n < |s| ==> stop(s[n]))
  {
    if s == [] || stop(s[0]) then 0 else 1 + Span(s[1..], stop)
  }

  function Skip(s: string, stop: char -> bool): (r: string)
    ensures |r| <= |s| && (r != [] ==> stop(r[0]))
  {
    s[Span(s, stop)..]
  }

  // What fits into a field of so many characters with its terminator.
  function Truncated(s: string, max: nat): (r: string)
    requires max > 0
    ensures |r| < max && |r| <= |s|
  {
    if |s| < max then s else s[..max - 1]
  }

  function Trimmed(s: string): (r: string)
    ensures |r| <= |s|
  {
    if s != [] && IsSpace(s[|s| - 1]) then Trimmed(s[..|s| - 1]) else s
  }

  function Digit(c: char): (d: nat)
    requires '0' <= c <= '9'
    ensures d < 10
  {
    c as int - '0' as int
  }

  predicate AllDigits(s: string) {
    forall i :: 0 <= i < |s| ==> '0' <= s[i] <= '9'
  }

  function Number(digits: string): nat
    requires AllDigits(digits)
  {
    if digits == [] then 0 else 10 * Number(digits[..|digits| - 1]) + Digit(digits[|digits| - 1])
  }

  // The number a text starts with.
  function LeadingNumber(s: string): nat {
    Number(s[..Span(s, NotDigit)])
  }

  // ---- Words ----

  function TypeOf(s: string): OSType {
    if s == "elf64" then Elf64
    else if s == "linux" then Linux
    else if s == "multiboot2" then Multiboot2
    else if s == "windows" then Windows
    else Unknown
  }

  function ColorOf(s: string): (c: int)
    ensures -1 <= c <= 15
  {
    if s == "black" then 0
    else if s == "blue" then 1
    else if s == "green" then 2
    else if s == "cyan" then 3
    else if s == "red" then 4
    else if s == "magenta" then 5
    else if s == "pink" then 5
    else if s == "brown" then 6
    else if s == "orange" then 6
    else if s == "lightgray" then 7
    else if s == "darkgray" then 8
    else if s == "lightblue" then 9
    else if s == "lightgreen" then 10
    else if s == "lightcyan" then 11
    else if s == "lightred" then 12
    else if s == "lightmagenta" then 13
    else if s == "yellow" then 14
    else if s == "white" then 15
    else -1
  }

  function KeyValueOf(line: string): Option<KeyValue> {
    var a := Skip(line, NotSpace);
    var k := Span(a, EndsKey);
    if k == 0 then None else ValueAfter(a[..k], a[k..])
  }

  // The setting of a key, if an equals sign comes next.
  function ValueAfter(key: string, more: string): Option<KeyValue> {
    var b := Skip(more, NotSpace);
    if b == [] || b[0] != '=' then None
    else
      var c := Skip(b[1..], NotSpace);
      Some(KeyValue(Truncated(key, MAX_KEY_LEN), Trimmed(Truncated(c[..Span(c, IsNewline)], MAX_STR_LEN))))
  }

  // ---- The effect of a setting ----

  function GlobalSet(s: Settings, key: string, val: string): Settings {
    if key == "timeout" then s.(timeout := LeadingNumber(val) % U32)
    else if key == "default" then s.(defaultEntry := LeadingNumber(val) % U32)
    else if key == "accent" then (if ColorOf(val) >= 0 then s.(accentColor := ColorOf(val)) else s)
    else if key == "theme" then (if 0 <= ColorOf(val) <= 7 then s.(themeColor := ColorOf(val)) else s)
    else s
  }

  predicate SaysYes(val: string) {
    val != [] && (val[0] == '1' || val[0] == 'y' || val[0] == 't')
  }

  function EntrySet(e: BootEntry, key: string, val: string): BootEntry {
    if key == "type" then e.(osType := TypeOf(val))
    else if key == "kernel" then e.(kernel := Truncated(val, MAX_STR_LEN))
    else if key == "initrd" then e.(initrd := Truncated(val, MAX_STR_LEN))
    else if key == "cmdline" then e.(cmdline := Truncated(val, MAX_STR_LEN))
    else if key == "encrypted" then e.(encrypted := if SaysYes(val) then 1 else 0)
    else if key == "luks_keyfile" then e.(luksKeyfile := Truncated(val, MAX_STR_LEN))
    else if key == "luks_tries" then e.(luksTries := if LeadingNumber(val) > 0 then LeadingNumber(val) else DEFAULT_TRIES)
    else e
  }

  function NewEntry(name: string): BootEntry {
    BootEntry(Truncated(name, MAX_STR_LEN), Elf64, "", "", "", 0, "", DEFAULT_TRIES)
  }

  // ---- The parser ----

  // The settings so far, and whether keys belong to the last entry.
  datatype State = State(settings: Settings, inEntry: bool) {
    // Keys belong to an entry only if there is one.
    predicate Ok() {
      inEntry ==> settings.entries != []
    }

    predicate Valid() {
      settings.Valid() && Ok()
    }

    function Set(key: string, val: string, merge: bool): (r: State)
      requires Ok()
      ensures r.Ok()
    {
      if inEntry then
        var last := |settings.entries| - 1;
        State(settings.(entries := settings.entries[last := EntrySet(settings.entries[last], key, val)]), true)
      else if merge then this
      else State(GlobalSet(settings, key, val), false)
    }

    // A new entry, unless the table is full.
    function Open(name: string): (r: State)
      requires Ok()
      ensures r.Ok()
    {
      if |settings.entries| < MAX_ENTRIES then
        State(settings.(entries := settings.entries + [NewEntry(name)]), true)
      else this
    }

    function SetLine(line: string, merge: bool): (r: State)
      requires Ok()
      ensures r.Ok()
    {
      match KeyValueOf(line)
      case None => this
      case Some(kv) => Set(kv.key, kv.val, merge)
    }
  }

  const ENTRY_PREFIX := "entry:"

  function LineLength(text: string): (n: nat)
    ensures n <= |text|
  {
    var n := Span(text, IsNewline);
    if n < 2 * MAX_STR_LEN then n else 2 * MAX_STR_LEN - 1
  }

  function AfterSection(text: string, st: State): (r: State)
    requires text != [] && st.Ok()
    ensures r.Ok()
  {
    if ENTRY_PREFIX <= text[1..] then st.Open(text[7..][..Span(text[7..], EndsName)]) else st
  }

  // The state after the item a text starts with.
  function AfterItem(text: string, st: State, merge: bool): (r: State)
    requires text != [] && NotBlank(text[0]) && st.Ok()
    ensures r.Ok()
  {
    if text[0] == '#' || text[0] == ';' then st
    else if text[0] == '[' then AfterSection(text, st)
    else st.SetLine(text[..LineLength(text)], merge)
  }

  // The text after it.
  function PastItem(text: string): (r: string)
    requires text != [] && NotBlank(text[0])
    ensures |r| < |text|
  {
    if text[0] == '#' || text[0] == ';' then Skip(text, IsNewline)
    else if text[0] == '[' then
      var r := Skip(text[1..], IsBracket);
      if r == [] then r else r[1..]
    else text[LineLength(text)..]
  }

  function Parse(text: string, st: State, merge: bool): State
    requires st.Ok()
    decreases |text|
  {
    var t := Skip(text, NotBlank);
    if t == [] then st else Parse(PastItem(t), AfterItem(t, st, merge), merge)
  }

  function Clamped(s: Settings): Settings {
    if s.defaultEntry >= |s.entries| && |s.entries| > 0 then s.(defaultEntry := 0) else s
  }

  const DEFAULTS := Settings(DEFAULT_TIMEOUT, 0, DEFAULT_THEME, DEFAULT_ACCENT, [])

  function Parsed(text: string, before: Settings, merge: bool): Settings {
    Clamped(Parse(text, State(if merge then before else DEFAULTS, false), merge).settings)
  }

  // ---- What parsing keeps ----

  lemma LineKeeps(st: State, line: string, merge: bool)
    requires st.Valid()
    ensures st.SetLine(line, merge).Valid()
  {
    hide KeyValueOf, ColorOf, Number, Span, Truncated, TypeOf;
  }

  /** Parsing any text keeps at most 16 entries, strings inside their fields and colours in range. */
  lemma {:induction false} ParseKeeps(text: string, st: State, merge: bool)
    requires st.Valid()
    ensures Parse(text, st, merge).Valid()
    decreases |text|
  {
    hide State.SetLine, Skip, PastItem, LineLength;
    var t := Skip(text, NotBlank);
    if t != [] {
      LineKeeps(st, t[..LineLength(t)], merge);
      ParseKeeps(PastItem(t), AfterItem(t, st, merge), merge);
    }
  }

  // The first n entries are settled, and so is everything else when merging.
  predicate Settled(st: State, n: nat) {
    n <= |st.settings.entries| && (st.inEntry ==> n < |st.settings.entries|)
  }

  predicate Extends(a: Settings, b: Settings, n: nat, merge: bool) {
    && n <= |a.entries| <= |b.entries| && b.entries[..n] == a.entries[..n]
    && (merge ==> b == a.(entries := b.entries))
  }

  lemma SetExtends(st: State, key: string, val: string, merge: bool, n: nat)
    requires Settled(st, n)
    ensures
      var next := st.Set(key, val, merge);
      Settled(next, n) && Extends(st.settings, next.settings, n, merge)
  {
    hide EntrySet;
    assert st.Set(key, val, merge).settings.entries[..n] == st.settings.entries[..n];
  }

  lemma OpenExtends(st: State, name: string, merge: bool, n: nat)
    requires Settled(st, n)
    ensures Settled(st.Open(name), n) && Extends(st.settings, st.Open(name).settings, n, merge)
  {
    hide NewEntry;
    assert st.Open(name).settings.entries[..n] == st.settings.entries[..n];
  }

  lemma ItemExtends(text: string, st: State, merge: bool, n: nat)
    requires text != [] && NotBlank(text[0]) && Settled(st, n)
    ensures
      var next := AfterItem(text, st, merge);
      Settled(next, n) && Extends(st.settings, next.settings, n, merge)
  {
    hide State.Set, State.Open, KeyValueOf, LineLength;
    var kv := KeyValueOf(text[..LineLength(text)]);
    if kv.Some? {
      SetExtends(st, kv.value.key, kv.value.val, merge, n);
    }
    if ENTRY_PREFIX <= text[1..] {
      OpenExtends(st, text[7..][..Span(text[7..], EndsName)], merge, n);
    }
  }

  lemma {:induction false} ParseExtends(text: string, st: State, merge: bool, n: nat)
    requires Settled(st, n)
    ensures Settled(Parse(text, st, merge), n)
    ensures Extends(st.settings, Parse(text, st, merge).settings, n, merge)
    decreases |text|
  {
    hide AfterItem, Skip, PastItem;
    var t := Skip(text, NotBlank);
    if t != [] {
      ItemExtends(t, st, merge, n);
      ParseExtends(PastItem(t), AfterItem(t, st, merge), merge, n);
    }
  }

  /** Merging any text leaves the earlier entries, the timeout and the colours as they were and only
      appends entries; the default entry stays too, if it named an entry. */
  lemma MergeOnlyAppends(text: string, before: Settings)
    requires before.Valid()
    ensures
      var after := Parsed(text, before, true);
      && after.Valid() && after.DefaultInRange()
      && before.entries <= after.entries
      && after.timeout == before.timeout && after.themeColor == before.themeColor
      && after.accentColor == before.accentColor
      && (before.entries != [] && before.DefaultInRange() ==> after.defaultEntry == before.defaultEntry)
      && (after.defaultEntry == before.defaultEntry || after.defaultEntry == 0)
  {
    hide Parse;
    var st := State(before, false);
    ParseKeeps(text, st, true);
    ParseExtends(text, st, true, |before.entries|);
    assert before.entries[..|before.entries|] == before.entries;
  }

  /** A full parse of any text gives settings in range, whatever the configuration held. */
  lemma ParseInRange(text: string, before: Settings)
    ensures Parsed(text, before, false).Valid() && Parsed(text, before, false).DefaultInRange()
  {
    hide Parse;
    ParseKeeps(text, State(DEFAULTS, false), false);
  }

  // ---- The printer ----

  function Digits(n: nat): (s: string)
    ensures s != [] && AllDigits(s)
  {
    if n < 10 then [DigitChar(n)] else Digits(n / 10) + [DigitChar(n % 10)]
  }

  function DigitChar(d: nat): (c: char)
    requires d < 10
    ensures '0' <= c <= '9' && Digit(c) == d
  {
    ('0' as int + d) as char
  }

  function TypeName(t: OSType): string {
    match t
    case Elf64 => "elf64"
    case Linux => "linux"
    case Multiboot2 => "multiboot2"
    case Windows => "windows"
    case _ => "unknown"
  }

  function ColorName(c: nat): string
    requires c <= 15
  {
    ["black", "blue", "green", "cyan", "red", "magenta", "brown", "lightgray", "darkgray", "lightblue",
     "lightgreen", "lightcyan", "lightred", "lightmagenta", "yellow", "white"][c]
  }

  // One line "key = value" for each setting.
  function Lines(settings: seq<KeyValue>): string {
    if settings == [] then "" else Line(settings[0]) + "\n" + Lines(settings[1..])
  }

  function Line(kv: KeyValue): string {
    kv.key + " = " + kv.val
  }

  function EntrySettings(e: BootEntry): seq<KeyValue> {
    [ KeyValue("type", TypeName(e.osType)),
      KeyValue("kernel", e.kernel),
      KeyValue("initrd", e.initrd),
      KeyValue("cmdline", e.cmdline),
      KeyValue("encrypted", if e.encrypted == 1 then "1" else "0"),
      KeyValue("luks_keyfile", e.luksKeyfile),
      KeyValue("luks_tries", Digits(e.luksTries)) ]
  }

  function Globals(s: Settings): seq<KeyValue>
    requires s.themeColor <= 15 && s.accentColor <= 15
  {
    [ KeyValue("timeout", Digits(s.timeout)),
      KeyValue("default", Digits(s.defaultEntry)),
      KeyValue("theme", ColorName(s.themeColor)),
      KeyValue("accent", ColorName(s.accentColor)) ]
  }

  function PrintedEntry(e: BootEntry): string {
    "[entry:" + e.name + "]\n" + Lines(EntrySettings(e))
  }

  function PrintedEntries(es: seq<BootEntry>): string {
    if es == [] then "" else PrintedEntry(es[0]) + PrintedEntries(es[1..])
  }

  function Printed(s: Settings): string
    requires s.themeColor <= 15 && s.accentColor <= 15
  {
    Lines(Globals(s)) + PrintedEntries(s.entries)
  }

  // ---- What can be printed ----

  // A value that fits, on one line, without spaces around it.
  predicate PlainValue(v: string) {
    |v| < 256 && (forall i :: 0 <= i < |v| ==> !IsNewline(v[i])) &&
    (v != [] ==> !IsSpace(v[0]) && !IsSpace(v[|v| - 1]))
  }

  predicate PlainKey(k: string) {
    k != [] && |k| < 64 && k[0] != '#' && k[0] != ';' && k[0] != '[' &&
    forall i :: 0 <= i < |k| ==> !EndsKey(k[i])
  }

  predicate Plain(kv: KeyValue) {
    PlainKey(kv.key) && PlainValue(kv.val)
  }

  predicate PlainName(name: string) {
    |name| < 256 && forall i :: 0 <= i < |name| ==> !EndsName(name[i])
  }

  predicate Printable(e: BootEntry) {
    && PlainName(e.name) && PlainValue(e.kernel) && PlainValue(e.initrd) && PlainValue(e.cmdline)
    && PlainValue(e.luksKeyfile) && e.osType != UefiShell && e.encrypted <= 1 && 0 < e.luksTries < MAX_INT
  }

  // ---- Parsing what was printed ----

  lemma SpanIs(s: string, stop: char -> bool, n: nat)
    requires n <= |s| && (forall i :: 0 <= i < n ==> !stop(s[i])) && (n < |s| ==> stop(s[n]))
    ensures Span(s, stop) == n
  {
  }

  lemma ValueSplits(key: string, v: string)
    requires PlainValue(v) && |key| < MAX_KEY_LEN
    ensures ValueAfter(key, " = " + v) == Some(KeyValue(key, v))
  {
    hide Span;
    var more := " = " + v;
    SpanIs(more, NotSpace, 1);
    assert more[1..][1..] == " " + v;
    SpanIs(" " + v, NotSpace, 1);
    assert (" " + v)[1..] == v;
    SpanIs(v, IsNewline, |v|);
    assert v[..|v|] == v;
  }

  lemma KeySplits(key: string, more: string)
    requires PlainKey(key) && more != [] && IsSpace(more[0])
    ensures KeyValueOf(key + more) == ValueAfter(key, more)
  {
    hide Span, ValueAfter;
    var line := key + more;
    SpanIs(line, NotSpace, 0);
    SpanIs(line, EndsKey, |key|);
    assert line[0..] == line;
    assert line[..|key|] == key && line[|key|..] == more;
  }

  lemma LineSplits(kv: KeyValue)
    requires Plain(kv)
    ensures KeyValueOf(Line(kv)) == Some(kv)
  {
    hide ValueAfter, KeyValueOf;
    KeySplits(kv.key, " = " + kv.val);
    ValueSplits(kv.key, kv.val);
    assert Line(kv) == kv.key + (" = " + kv.val);
  }

  lemma BlankSkipped(rest: string, st: State, merge: bool)
    requires st.Ok()
    ensures Parse("\n" + rest, st, merge) == Parse(rest, st, merge)
  {
    var n := Span(rest, NotBlank);
    hide Span, Parse;
    var text := "\n" + rest;
    SpanIs(text, NotBlank, 1 + n);
    assert text[1 + n..] == rest[n..];
    UnfoldParse(text, st, merge);
    UnfoldParse(rest, st, merge);
  }

  lemma UnfoldParse(text: string, st: State, merge: bool)
    requires st.Ok()
    ensures
      var t := Skip(text, NotBlank);
      Parse(text, st, merge) == if t == [] then st else Parse(PastItem(t), AfterItem(t, st, merge), merge)
  {
  }

  lemma LineParsed(kv: KeyValue, rest: string, st: State, merge: bool)
    requires Plain(kv) && st.Ok()
    ensures Parse(Line(kv) + "\n" + rest, st, merge) == Parse(rest, st.Set(kv.key, kv.val, merge), merge)
  {
    hide Span, Parse, State.Set, KeyValueOf;
    var line := Line(kv);
    var text := line + "\n" + rest;
    SpanIs(text, NotBlank, 0);
    SpanIs(text, IsNewline, |line|);
    assert text[..|line|] == line && text[|line|..] == "\n" + rest;
    LineSplits(kv);
    UnfoldParse(text, st, merge);
    BlankSkipped(rest, st.Set(kv.key, kv.val, merge), merge);
  }

  // One setting after another.
  function SetAll(st: State, settings: seq<KeyValue>, merge: bool): (r: State)
    requires st.Ok()
    ensures r.Ok()
    decreases |settings|
  {
    if settings == [] then st else SetAll(st.Set(settings[0].key, settings[0].val, merge), settings[1..], merge)
  }

  lemma {:induction false} LinesParsed(settings: seq<KeyValue>, rest: string, st: State, merge: bool)
    requires (forall i :: 0 <= i < |settings| ==> Plain(settings[i])) && st.Ok()
    ensures Parse(Lines(settings) + rest, st, merge) == Parse(rest, SetAll(st, settings, merge), merge)
    decreases |settings|
  {
    hide Parse, State.Set, Plain, Line;
    if settings == [] {
      assert Lines(settings) + rest == rest;
    } else {
      var more := Lines(settings[1..]) + rest;
      assert Lines(settings) + rest == Line(settings[0]) + "\n" + more;
      LineParsed(settings[0], more, st, merge);
      LinesParsed(settings[1..], rest, st.Set(settings[0].key, settings[0].val, merge), merge);
    }
  }

  lemma SectionParsed(name: string, rest: string, st: State, merge: bool)
    requires PlainName(name) && st.Ok()
    ensures Parse("[entry:" + name + "]\n" + rest, st, merge) == Parse(rest, st.Open(name), merge)
  {
    hide Span, Parse, State.Open;
    var text := "[entry:" + name + "]\n" + rest;
    SpanIs(text, NotBlank, 0);
    assert text[1..7] == ENTRY_PREFIX;
    assert text[7..] == name + "]\n" + rest;
    SpanIs(text[7..], EndsName, |name|);
    SpanIs(text[1..], IsBracket, 6 + |name|);
    assert text[7..][..|name|] == name;
    assert text[1..][6 + |name|..][1..] == "\n" + rest;
    UnfoldParse(text, st, merge);
    BlankSkipped(rest, st.Open(name), merge);
  }

  lemma {:induction false} NumberOfDigits(n: nat)
    ensures Number(Digits(n)) == n
  {
    if n >= 10 {
      NumberOfDigits(n / 10);
      assert Digits(n)[..|Digits(n)| - 1] == Digits(n / 10);
    }
  }

  lemma DecimalRead(n: nat)
    ensures LeadingNumber(Digits(n)) == n
  {
    var s := Digits(n);
    NumberOfDigits(n);
    hide Digits, Number;
    SpanIs(s, NotDigit, |s|);
    assert s[..|s|] == s;
  }

  lemma {:induction false} DigitsShort(n: nat)
    requires n < U32
    ensures PlainValue(Digits(n))
  {
    DigitCount(n, 10);
    hide Digits;
  }

  lemma {:induction false} DigitCount(n: nat, k: nat)
    requires k > 0 && n < Power10(k)
    ensures |Digits(n)| <= k
  {
    assert Power10(k) == 10 * Power10(k - 1) && Power10(0) == 1;
    if n >= 10 {
      DigitCount(n / 10, k - 1);
    }
  }

  function Power10(k: nat): nat {
    if k == 0 then 1 else 10 * Power10(k - 1)
  }

  // Setting the keys of an entry one after another.
  function Updated(e: BootEntry, settings: seq<KeyValue>): BootEntry
    decreases |settings|
  {
    if settings == [] then e else Updated(EntrySet(e, settings[0].key, settings[0].val), settings[1..])
  }

  function WithLast(st: State, e: BootEntry): (r: State)
    requires st.inEntry && st.Ok()
    ensures r.inEntry && r.Ok() && r.settings.entries[|r.settings.entries| - 1] == e
  {
    State(st.settings.(entries := st.settings.entries[|st.settings.entries| - 1 := e]), true)
  }

  lemma {:induction false} SetAllUpdates(st: State, settings: seq<KeyValue>, merge: bool)
    requires st.inEntry && st.Ok()
    ensures SetAll(st, settings, merge) == WithLast(st, Updated(st.settings.entries[|st.settings.entries| - 1], settings))
    decreases |settings|
  {
    hide EntrySet;
    if settings != [] {
      SetAllUpdates(st.Set(settings[0].key, settings[0].val, merge), settings[1..], merge);
    }
  }

  lemma TypeRead(t: OSType)
    requires t != UefiShell
    ensures TypeOf(TypeName(t)) == t && PlainValue(TypeName(t))
  {
  }

  lemma ColorRead(c: nat)
    requires c <= 15
    ensures ColorOf(ColorName(c)) == c
  {
    if c < 8 {
      if c < 4 {} else {}
    } else {
      if c < 12 {} else {}
    }
  }

  lemma ColorPlain(c: nat)
    requires c <= 15
    ensures PlainValue(ColorName(c))
  {
    if c < 8 {} else {}
  }

  // A run of updates, entry by entry.
  lemma {:induction false} UpdatedTo(settings: seq<KeyValue>, run: seq<BootEntry>)
    requires |run| == |settings| + 1
    requires forall i :: 0 <= i < |settings| ==> run[i + 1] == EntrySet(run[i], settings[i].key, settings[i].val)
    ensures Updated(run[0], settings) == run[|settings|]
    decreases |settings|
  {
    hide EntrySet;
    if settings != [] {
      var rest, more := settings[1..], run[1..];
      forall i | 0 <= i < |rest| ensures more[i + 1] == EntrySet(more[i], rest[i].key, rest[i].val) {
        assert rest[i] == settings[i + 1] && more[i] == run[i + 1] && more[i + 1] == run[i + 1 + 1];
      }
      UpdatedTo(rest, more);
    }
  }

  lemma TextSet(e: BootEntry, v: string)
    requires |v| < MAX_STR_LEN
    ensures EntrySet(e, "kernel", v) == e.(kernel := v) && EntrySet(e, "initrd", v) == e.(initrd := v)
    ensures EntrySet(e, "cmdline", v) == e.(cmdline := v) && EntrySet(e, "luks_keyfile", v) == e.(luksKeyfile := v)
  {
    hide TypeOf, LeadingNumber, SaysYes;
  }

  lemma ChoiceSet(e: BootEntry, t: OSType, tries: nat)
    requires t != UefiShell && tries > 0
    ensures EntrySet(e, "type", TypeName(t)) == e.(osType := t)
    ensures EntrySet(e, "luks_tries", Digits(tries)) == e.(luksTries := tries)
    ensures EntrySet(e, "encrypted", "1") == e.(encrypted := 1) && EntrySet(e, "encrypted", "0") == e.(encrypted := 0)
  {
    TypeRead(t);
    DecimalRead(tries);
    hide TypeOf, TypeName, Digits, LeadingNumber;
  }

  // The settings of an entry, applied to any entry, give it, but for the name.
  lemma EntryRebuilt(base: BootEntry, e: BootEntry)
    requires Printable(e)
    ensures Updated(base, EntrySettings(e)) == e.(name := base.name)
  {
    hide TypeName, Digits, PlainName, Updated, EntrySet;
    var e1 := base.(osType := e.osType);
    var e2 := e1.(kernel := e.kernel);
    var e3 := e2.(initrd := e.initrd);
    var e4 := e3.(cmdline := e.cmdline);
    var e5 := e4.(encrypted := e.encrypted);
    var e6 := e5.(luksKeyfile := e.luksKeyfile);
    var e7 := e6.(luksTries := e.luksTries);
    ChoiceSet(base, e.osType, e.luksTries);
    TextSet(e1, e.kernel);
    TextSet(e2, e.initrd);
    TextSet(e3, e.cmdline);
    ChoiceSet(e4, e.osType, e.luksTries);
    TextSet(e5, e.luksKeyfile);
    ChoiceSet(e6, e.osType, e.luksTries);
    UpdatedTo(EntrySettings(e), [base, e1, e2, e3, e4, e5, e6, e7]);
  }

  // What the text of an entry does: it appends the entry, or, once the table is full, overwrites all
  // but the name of the last entry of this parse.
  function EntryAdded(st: State, e: BootEntry): (r: State)
    requires st.Ok() && (|st.settings.entries| < MAX_ENTRIES || st.inEntry)
    ensures r.inEntry && r.Ok()
  {
    if |st.settings.entries| < MAX_ENTRIES then
      State(st.settings.(entries := st.settings.entries + [e]), true)
    else
      WithLast(st, e.(name := st.settings.entries[|st.settings.entries| - 1].name))
  }

  lemma KeysPlain()
    ensures PlainKey("type") && PlainKey("kernel") && PlainKey("initrd") && PlainKey("cmdline")
    ensures PlainKey("encrypted") && PlainKey("luks_keyfile") && PlainKey("luks_tries")
    ensures PlainKey("timeout") && PlainKey("default") && PlainKey("theme") && PlainKey("accent")
  {
  }

  lemma SettingsPlain(e: BootEntry)
    requires Printable(e)
    ensures forall i :: 0 <= i < |EntrySettings(e)| ==> Plain(EntrySettings(e)[i])
  {
    TypeRead(e.osType);
    DigitsShort(e.luksTries);
    KeysPlain();
    assert PlainValue("0") && PlainValue("1");
    hide Digits, TypeName, TypeOf, PlainKey, PlainValue, PlainName;
    var s := EntrySettings(e);
    assert Plain(s[0]) && Plain(s[1]) && Plain(s[2]) && Plain(s[3]) && Plain(s[4]) && Plain(s[5]) && Plain(s[6]);
  }

  lemma EntryParsed(e: BootEntry, rest: string, st: State, merge: bool)
    requires Printable(e) && st.Ok() && (|st.settings.entries| < MAX_ENTRIES || st.inEntry)
    ensures Parse(PrintedEntry(e) + rest, st, merge) == Parse(rest, EntryAdded(st, e), merge)
  {
    hide Parse, SetAll, Updated, EntrySettings, Lines, PlainValue, PlainName, Plain;
    var next := st.Open(e.name);
    var settings := EntrySettings(e);
    var lines := Lines(settings) + rest;
    assert PrintedEntry(e) + rest == "[entry:" + e.name + "]\n" + lines;
    SectionParsed(e.name, lines, st, merge);
    SettingsPlain(e);
    LinesParsed(settings, rest, next, merge);
    SetAllUpdates(next, settings, merge);
    EntryRebuilt(next.settings.entries[|next.settings.entries| - 1], e);
    AddedIs(st, e);
  }

  lemma AddedIs(st: State, e: BootEntry)
    requires Printable(e) && st.Ok() && (|st.settings.entries| < MAX_ENTRIES || st.inEntry)
    ensures
      var next := st.Open(e.name);
      next.inEntry &&
      WithLast(next, e.(name := next.settings.entries[|next.settings.entries| - 1].name)) == EntryAdded(st, e)
  {
    hide PlainValue;
    var es := st.settings.entries;
    assert |es| < MAX_ENTRIES ==> (es + [NewEntry(e.name)])[|es| := e] == es + [e];
  }

  // Entries after those there are, while there is room.
  function AllAdded(st: State, es: seq<BootEntry>): (r: State)
    requires st.Ok()
    ensures r.Ok()
  {
    State(st.settings.(entries := st.settings.entries + es), st.inEntry || es != [])
  }

  lemma AddedOneByOne(st: State, es: seq<BootEntry>)
    requires st.Ok() && es != [] && |st.settings.entries| < MAX_ENTRIES
    ensures AllAdded(EntryAdded(st, es[0]), es[1..]) == AllAdded(st, es)
  {
    assert st.settings.entries + [es[0]] + es[1..] == st.settings.entries + es;
  }

  lemma {:induction false} EntriesParsed(es: seq<BootEntry>, rest: string, st: State, merge: bool)
    requires (forall i :: 0 <= i < |es| ==> Printable(es[i])) && st.Ok() && |st.settings.entries| + |es| <= MAX_ENTRIES
    ensures Parse(PrintedEntries(es) + rest, st, merge) == Parse(rest, AllAdded(st, es), merge)
    decreases |es|
  {
    hide Parse, Printable, PrintedEntry;
    if es == [] {
      assert PrintedEntries(es) + rest == rest;
      assert st.settings.entries + es == st.settings.entries;
    } else {
      var more := PrintedEntries(es[1..]) + rest;
      assert PrintedEntries(es) + rest == PrintedEntry(es[0]) + more;
      EntryParsed(es[0], more, st, merge);
      EntriesParsed(es[1..], rest, EntryAdded(st, es[0]), merge);
      AddedOneByOne(st, es);
    }
  }

  // The text of entries that the full table has no room for, in an entry: each overwrites all of the
  // last one but its name.
  lemma {:induction false} SurplusOverwritten(es: seq<BootEntry>, rest: string, st: State, merge: bool)
    requires (forall i :: 0 <= i < |es| ==> Printable(es[i])) && st.Ok()
    requires |st.settings.entries| == MAX_ENTRIES && st.inEntry && es != []
    ensures Parse(PrintedEntries(es) + rest, st, merge) ==
            Parse(rest, WithLast(st, es[|es| - 1].(name := st.settings.entries[MAX_ENTRIES - 1].name)), merge)
    decreases |es|
  {
    hide Parse, Printable, PrintedEntry;
    var more := PrintedEntries(es[1..]) + rest;
    assert PrintedEntries(es) + rest == PrintedEntry(es[0]) + more;
    EntryParsed(es[0], more, st, merge);
    if |es| == 1 {
      assert more == rest;
    } else {
      var next := EntryAdded(st, es[0]);
      SurplusOverwritten(es[1..], rest, next, merge);
      LastWins(st, es[0].(name := st.settings.entries[MAX_ENTRIES - 1].name),
               es[|es| - 1].(name := st.settings.entries[MAX_ENTRIES - 1].name));
    }
  }

  lemma LastWins(st: State, a: BootEntry, b: BootEntry)
    requires st.inEntry && st.Ok()
    ensures WithLast(WithLast(st, a), b) == WithLast(st, b)
  {
    var es := st.settings.entries;
    assert es[|es| - 1 := a][|es| - 1 := b] == es[|es| - 1 := b];
  }

  // When the table was full before a merge, the text of an entry has no effect at all.
  lemma {:induction false} SurplusSkipped(es: seq<BootEntry>, rest: string, st: State)
    requires (forall i :: 0 <= i < |es| ==> Printable(es[i])) && |st.settings.entries| >= MAX_ENTRIES && !st.inEntry
    ensures Parse(PrintedEntries(es) + rest, st, true) == Parse(rest, st, true)
    decreases |es|
  {
    hide Parse, SetAll, EntrySettings, Lines, Printable, PlainValue, PlainName, Plain;
    if es == [] {
      assert PrintedEntries(es) + rest == rest;
    } else {
      var e, more := es[0], PrintedEntries(es[1..]) + rest;
      var lines := Lines(EntrySettings(e)) + more;
      assert PrintedEntries(es) + rest == "[entry:" + e.name + "]\n" + lines;
      PrintableName(e);
      SectionParsed(e.name, lines, st, true);
      SettingsPlain(e);
      LinesParsed(EntrySettings(e), more, st, true);
      GlobalsIgnored(st, EntrySettings(e));
      SurplusSkipped(es[1..], rest, st);
    }
  }

  lemma PrintableName(e: BootEntry)
    requires Printable(e)
    ensures PlainName(e.name)
  {
  }

  lemma {:induction false} EntriesJoin(a: seq<BootEntry>, b: seq<BootEntry>)
    ensures PrintedEntries(a + b) == PrintedEntries(a) + PrintedEntries(b)
  {
    hide PrintedEntry;
    if a == [] {
      assert a + b == b;
    } else {
      assert (a + b)[1..] == a[1..] + b;
      EntriesJoin(a[1..], b);
    }
  }

  // The entries after printed ones are parsed on top of those there are: what there is room for is
  // appended, and then the last of the surplus overwrites the last new entry, but for its name.
  function Entered(have: seq<BootEntry>, es: seq<BootEntry>): seq<BootEntry>
    requires |have| <= MAX_ENTRIES
  {
    var room := MAX_ENTRIES - |have|;
    if |es| <= room then have + es
    else if room == 0 then have
    else have + es[..room - 1] + [es[|es| - 1].(name := es[room - 1].name)]
  }

  lemma AllEntriesParsed(es: seq<BootEntry>, st: State, merge: bool)
    requires (forall i :: 0 <= i < |es| ==> Printable(es[i])) && !st.inEntry
    requires |st.settings.entries| <= MAX_ENTRIES && (merge || |st.settings.entries| < MAX_ENTRIES)
    ensures Parse(PrintedEntries(es), st, merge).settings ==
            st.settings.(entries := Entered(st.settings.entries, es))
  {
    hide Parse, Printable, PrintedEntries;
    var have, room := st.settings.entries, MAX_ENTRIES - |st.settings.entries|;
    assert PrintedEntries(es) + "" == PrintedEntries(es);
    if |es| <= room {
      EntriesParsed(es, "", st, merge);
      NothingLeft(AllAdded(st, es), merge);
    } else if room == 0 {
      SurplusSkipped(es, "", st);
      NothingLeft(st, merge);
    } else {
      var a, b := es[..room], es[room..];
      assert a + b == es;
      EntriesJoin(a, b);
      EntriesParsed(a, PrintedEntries(b), st, merge);
      var full := AllAdded(st, a);
      assert PrintedEntries(b) + "" == PrintedEntries(b);
      SurplusOverwritten(b, "", full, merge);
      var last := b[|b| - 1].(name := full.settings.entries[MAX_ENTRIES - 1].name);
      NothingLeft(WithLast(full, last), merge);
      assert (have + a)[MAX_ENTRIES - 1 := last] == have + es[..room - 1] + [last];
    }
  }

  // A configuration that has a text: numbers of 32 bits, 1 to 16 printable entries, the default one of them.
  predicate HasText(s: Settings) {
    && s.Valid() && s.entries != [] && s.DefaultInRange()
    && forall i :: 0 <= i < |s.entries| ==> Printable(s.entries[i])
  }

  predicate GlobalsInRange(s: Settings) {
    s.timeout < U32 && s.defaultEntry < U32 && s.themeColor <= 7 && s.accentColor <= 15
  }

  // Any number of printable entries and global settings in range.
  predicate Writable(s: Settings) {
    GlobalsInRange(s) && forall i :: 0 <= i < |s.entries| ==> Printable(s.entries[i])
  }

  lemma GlobalsPlain(s: Settings)
    requires s.timeout < U32 && s.defaultEntry < U32 && s.themeColor <= 15 && s.accentColor <= 15
    ensures forall i :: 0 <= i < |Globals(s)| ==> Plain(Globals(s)[i])
  {
    DigitsShort(s.timeout);
    DigitsShort(s.defaultEntry);
    ColorPlain(s.themeColor);
    ColorPlain(s.accentColor);
    KeysPlain();
    hide Digits, ColorName, PlainKey, PlainValue;
    var g := Globals(s);
    assert Plain(g[0]) && Plain(g[1]) && Plain(g[2]) && Plain(g[3]);
  }

  // A run of global settings, one by one.
  lemma {:induction false} GlobalsTo(settings: seq<KeyValue>, run: seq<Settings>)
    requires |run| == |settings| + 1
    requires forall i :: 0 <= i < |settings| ==> run[i + 1] == GlobalSet(run[i], settings[i].key, settings[i].val)
    ensures SetAll(State(run[0], false), settings, false) == State(run[|settings|], false)
    decreases |settings|
  {
    hide GlobalSet;
    if settings != [] {
      var rest, more := settings[1..], run[1..];
      forall i | 0 <= i < |rest| ensures more[i + 1] == GlobalSet(more[i], rest[i].key, rest[i].val) {
        assert rest[i] == settings[i + 1] && more[i] == run[i + 1] && more[i + 1] == run[i + 1 + 1];
      }
      GlobalsTo(rest, more);
    }
  }

  lemma NumberSet(s: Settings, n: nat)
    requires n < U32
    ensures GlobalSet(s, "timeout", Digits(n)) == s.(timeout := n)
    ensures GlobalSet(s, "default", Digits(n)) == s.(defaultEntry := n)
  {
    DecimalRead(n);
    hide Digits, LeadingNumber, ColorOf;
  }

  lemma ColorSet(s: Settings, c: nat)
    requires c <= 15
    ensures c <= 7 ==> GlobalSet(s, "theme", ColorName(c)) == s.(themeColor := c)
    ensures GlobalSet(s, "accent", ColorName(c)) == s.(accentColor := c)
  {
    ColorRead(c);
    hide ColorName, ColorOf, LeadingNumber;
  }

  lemma GlobalsRead(s: Settings, st: State)
    requires GlobalsInRange(s) && !st.inEntry
    ensures SetAll(st, Globals(s), false) == State(s.(entries := st.settings.entries), false)
  {
    hide Digits, ColorName, SetAll, GlobalSet;
    var s1 := st.settings.(timeout := s.timeout);
    var s2 := s1.(defaultEntry := s.defaultEntry);
    var s3 := s2.(themeColor := s.themeColor);
    NumberSet(st.settings, s.timeout);
    NumberSet(s1, s.defaultEntry);
    ColorSet(s2, s.themeColor);
    ColorSet(s3, s.accentColor);
    GlobalsTo(Globals(s), [st.settings, s1, s2, s3, s3.(accentColor := s.accentColor)]);
  }

  lemma {:induction false} GlobalsIgnored(st: State, settings: seq<KeyValue>)
    requires !st.inEntry
    ensures SetAll(st, settings, true) == st
    decreases |settings|
  {
    if settings != [] {
      GlobalsIgnored(st, settings[1..]);
    }
  }

  /** What a full parse makes of any printed configuration, of however many entries. */
  lemma PrintedParsed(s: Settings, before: Settings)
    requires Writable(s)
    ensures Parsed(Printed(s), before, false) == Clamped(s.(entries := Entered([], s.entries)))
  {
    hide Parse, Lines, SetAll, PrintedEntries, Printable, Plain;
    var st := State(DEFAULTS, false);
    GlobalsPlain(s);
    LinesParsed(Globals(s), PrintedEntries(s.entries), st, false);
    GlobalsRead(s, st);
    AllEntriesParsed(s.entries, State(s.(entries := []), false), false);
  }

  /** What a merge makes of it: the entries only, on top of those there are. */
  lemma PrintedMerged(s: Settings, before: Settings)
    requires Writable(s) && |before.entries| <= MAX_ENTRIES
    ensures Parsed(Printed(s), before, true) == Clamped(before.(entries := Entered(before.entries, s.entries)))
  {
    hide Parse, Lines, SetAll, PrintedEntries, Printable, Plain;
    var st := State(before, false);
    GlobalsPlain(s);
    LinesParsed(Globals(s), PrintedEntries(s.entries), st, true);
    GlobalsIgnored(st, Globals(s));
    AllEntriesParsed(s.entries, st, true);
  }

  /** Parsing undoes printing: every field of every entry and every global setting comes back, whatever
      the configuration held before. */
  lemma ParseUndoesPrint(s: Settings, before: Settings)
    requires HasText(s)
    ensures Parsed(Printed(s), before, false) == s
  {
    hide Parsed, Printable;
    PrintedParsed(s, before);
    assert [] + s.entries == s.entries;
  }

  /** Merging a printed configuration appends its entries and changes nothing else, as long as they
      all fit. */
  lemma MergeAppendsPrinted(s: Settings, before: Settings)
    requires HasText(s) && before.Valid() && before.DefaultInRange() && |before.entries| + |s.entries| <= 16
    ensures Parsed(Printed(s), before, true) ==
            Clamped(before.(entries := before.entries + s.entries))
  {
    hide Parsed, Printable;
    PrintedMerged(s, before);
  }

  lemma NothingLeft(st: State, merge: bool)
    requires st.Ok()
    ensures Parse("", st, merge) == st
  {
  }

  // ---- More entries than the table holds ----

  // As many entries as there is room for.
  function FirstOf(es: seq<BootEntry>, room: nat): seq<BootEntry> {
    if |es| <= room then es else es[..room]
  }

  /** Sections beyond the sixteenth are not ignored: the last of them overwrites all of the sixteenth
      entry but its name. */
  lemma SurplusOverwrites(s: Settings, before: Settings)
    requires Writable(s) && |s.entries| > MAX_ENTRIES
    ensures
      var es, last := s.entries, MAX_ENTRIES - 1;
      Parsed(Printed(s), before, false).entries == es[..last] + [es[|es| - 1].(name := es[last].name)]
  {
    hide Parsed, Printable;
    PrintedParsed(s, before);
  }

  /** They have no effect exactly when there are none, or the last of them says what the sixteenth says. */
  lemma SurplusIgnoredExactly(s: Settings, before: Settings)
    requires Writable(s)
    ensures
      var es, last := s.entries, MAX_ENTRIES - 1;
      Parsed(Printed(s), before, false).entries == FirstOf(es, MAX_ENTRIES) <==>
      |es| <= MAX_ENTRIES || es[|es| - 1].(name := es[last].name) == es[last]
  {
    hide Parsed, Printable;
    PrintedParsed(s, before);
    EnteredExactly([], s.entries);
    assert [] + FirstOf(s.entries, MAX_ENTRIES) == FirstOf(s.entries, MAX_ENTRIES);
  }

  /** A merge into a full table changes nothing. One that overflows overwrites the last new entry, if
      there was room for one, and has the effect of the entries that fit exactly under the same
      condition. */
  lemma MergeSurplus(s: Settings, before: Settings)
    requires Writable(s) && |before.entries| <= MAX_ENTRIES && |before.entries| + |s.entries| > MAX_ENTRIES
    ensures
      var have, es, room := before.entries, s.entries, MAX_ENTRIES - |before.entries|;
      var after := Parsed(Printed(s), before, true).entries;
      && (room == 0 ==> after == have)
      && (room > 0 ==> after == have + es[..room - 1] + [es[|es| - 1].(name := es[room - 1].name)])
      && (after == have + FirstOf(es, room) <==> room == 0 || es[|es| - 1].(name := es[room - 1].name) == es[room - 1])
  {
    hide Parsed, Printable;
    PrintedMerged(s, before);
    EnteredExactly(before.entries, s.entries);
  }

  lemma EnteredExactly(have: seq<BootEntry>, es: seq<BootEntry>)
    requires |have| <= MAX_ENTRIES
    ensures
      var room := MAX_ENTRIES - |have|;
      Entered(have, es) == have + FirstOf(es, room) <==>
      |es| <= room || room == 0 || es[|es| - 1].(name := es[room - 1].name) == es[room - 1]
  {
    var room := MAX_ENTRIES - |have|;
    if |es| > room && room > 0 {
      var last := es[|es| - 1].(name := es[room - 1].name);
      assert have + FirstOf(es, room) == have + es[..room - 1] + [es[room - 1]];
      assert (have + es[..room - 1] + [last])[MAX_ENTRIES - 1] == last;
      assert (have + es[..room - 1] + [es[room - 1]])[MAX_ENTRIES - 1] == es[room - 1];
    } else if room == 0 {
      assert have + es[..0] == have;
    }
  }
}
