/** Configurations as people write them: comments, blank lines, indentation, any spacing round the equals
    sign, sections of other programs and all spellings of colours, types and yes; and what they mean. */
module ConfigText {
  import opened Bytes
  import opened Config

  // ---- Words ----

  /** Which words name a colour. */
  lemma ColorIs(s: string, c: nat)
    requires c <= 15
    ensures ColorOf(s) == c <==> Names(s, c)
  {
    if s == ColorName(c) {
      ColorRead(c);
    } else if ColorOf(s) >= 0 {
      ColorSpelled(s);
    }
  }

  // A word that names a colour is its name or one of the two other spellings.
  lemma ColorSpelled(s: string)
    requires ColorOf(s) >= 0
    ensures Names(s, ColorOf(s))
  {
  }

  /** Which words name a type; all others are of no known type. */
  lemma TypeIs(s: string)
    ensures (TypeOf(s) == Elf64 <==> s == "elf64") && (TypeOf(s) == Linux <==> s == "linux")
    ensures (TypeOf(s) == Multiboot2 <==> s == "multiboot2") && (TypeOf(s) == Windows <==> s == "windows")
    ensures TypeOf(s) == Unknown <==> s !in {"elf64", "linux", "multiboot2", "windows"}
  {
  }

  /** Whatever begins with 1, y or t says yes. */
  lemma SaysYesIs(val: string)
    ensures SaysYes(val) <==> "1" <= val || "y" <= val || "t" <= val
  {
  }

  /** A number is read up to the first character that is no digit. */
  lemma LeadingNumberIs(digits: string, more: string)
    requires AllDigits(digits) && (more != "" ==> NotDigit(more[0]))
    ensures LeadingNumber(digits + more) == Number(digits)
  {
    hide Number;
    SpanIs(digits + more, NotDigit, |digits|);
    assert (digits + more)[..|digits|] == digits;
  }

  /** Keys that are not known change nothing. */
  lemma OtherKeysIgnored(s: Settings, e: BootEntry, key: string, val: string)
    ensures key !in {"timeout", "default", "accent", "theme"} ==> GlobalSet(s, key, val) == s
    ensures key !in {"type", "kernel", "initrd", "cmdline", "encrypted", "luks_keyfile", "luks_tries"} ==>
      EntrySet(e, key, val) == e
  {
    hide ColorOf, LeadingNumber, Truncated, TypeOf, SaysYes;
  }

  // A word that names a colour.
  predicate Names(s: string, c: nat)
    requires c <= 15
  {
    s == ColorName(c) || (c == 5 && s == "pink") || (c == 6 && s == "orange")
  }

  /** What the settings of colours do: a theme has to be one of the first eight, and words that name no colour
      change nothing. */
  lemma ColorsSet(s: Settings, val: string, c: nat)
    requires c <= 15
    ensures Names(val, c) ==> GlobalSet(s, "accent", val) == s.(accentColor := c)
    ensures Names(val, c) ==> GlobalSet(s, "theme", val) == if c < 8 then s.(themeColor := c) else s
    ensures (forall d: nat :: d <= 15 ==> !Names(val, d)) ==>
      GlobalSet(s, "accent", val) == s && GlobalSet(s, "theme", val) == s
  {
    ColorIs(val, c);
    if ColorOf(val) >= 0 {
      ColorIs(val, ColorOf(val));
      assert Names(val, ColorOf(val));
    }
    hide ColorOf, ColorName, LeadingNumber;
  }

  /** What the settings of numbers do, whatever follows the digits; no attempts are three attempts. */
  lemma NumbersSet(s: Settings, e: BootEntry, digits: string, more: string)
    requires AllDigits(digits) && (more != "" ==> NotDigit(more[0]))
    ensures GlobalSet(s, "timeout", digits + more) == s.(timeout := Number(digits) % 0x1_0000_0000)
    ensures GlobalSet(s, "default", digits + more) == s.(defaultEntry := Number(digits) % 0x1_0000_0000)
    ensures EntrySet(e, "luks_tries", digits + more) == e.(luksTries := if Number(digits) == 0 then 3 else Number(digits))
  {
    LeadingNumberIs(digits, more);
    hide LeadingNumber, Number, TypeOf, SaysYes, ColorOf;
  }

  /** An entry is encrypted if the word begins with 1, y or t, and is not if it is any other. */
  lemma EncryptedSet(e: BootEntry, val: string)
    ensures EntrySet(e, "encrypted", val) == e.(encrypted := if "1" <= val || "y" <= val || "t" <= val then 1 else 0)
  {
    SaysYesIs(val);
    hide SaysYes, TypeOf, LeadingNumber;
  }

  /** What holds when nothing is said: five seconds, the first entry, magenta and yellow; and for an entry, an ELF
      kernel, nothing else and three attempts. */
  lemma DefaultsAre(name: string, before: Settings, st: State)
    requires |name| < 256 && st.Ok() && |st.settings.entries| < 16
    ensures Parsed("", before, false) == Settings(5, 0, 5, 14, [])
    ensures st.Open(name) ==
            State(st.settings.(entries := st.settings.entries + [BootEntry(name, Elf64, "", "", "", 0, "", 3)]), true)
  {
    hide State.Ok;
  }

  /** A default beyond the last entry is taken for the first. */
  lemma DefaultBeyond(s: Settings)
    ensures Clamped(s) == if s.entries != [] && s.defaultEntry >= |s.entries| then s.(defaultEntry := 0) else s
  {
  }

  /** What does not fit into a field is cut off at its end. */
  lemma TruncatedIs(s: string, max: nat)
    requires max > 0
    ensures Truncated(s, max) <= s && |Truncated(s, max)| == if |s| < max then |s| else max - 1
  {
  }

  /** A line is read up to its end, or to the 511th character, and what follows is read as the next. */
  lemma LineLengthIs(line: string, rest: string)
    requires NoNewline(line)
    ensures |line| < 512 && (rest != "" ==> IsNewline(rest[0])) ==> LineLength(line + rest) == |line|
    ensures |line| >= 512 ==> LineLength(line + rest) == 511
  {
    hide Span;
    if rest == "" || IsNewline(rest[0]) {
      SpanIs(line + rest, IsNewline, |line|);
    } else {
      assert Span(line + rest, IsNewline) >= |line|;
    }
  }

  // ---- Lines ----

  datatype Item =
    | Blank
    | Comment(mark: char, text: string)
    | Section(name: string)
    | Other(text: string)
    | Assign(key: string, before: string, after: string, val: string, trail: string)
  {
    // What stands in the file, without its indentation and line end.
    function Spelled(): string {
      match this
      case Blank => ""
      case Comment(mark, text) => [mark] + text
      case Section(name) => "[entry:" + name + "]"
      case Other(text) => "[" + text + "]"
      case Assign(key, before, after, val, trail) => key + before + "=" + after + val + trail
    }

    ghost predicate Sound() {
      match this
      case Blank => true
      case Comment(mark, text) => (mark == '#' || mark == ';') && NoNewline(text)
      case Section(name) => PlainName(name)
      case Other(text) => NoBracket(text) && !(ENTRY_PREFIX <= text)
      case Assign(key, before, after, val, trail) =>
        && PlainKey(key) && Spaces(before) && Spaces(after) && PlainValue(val) && Spaces(trail)
        && |val + trail| < MAX_STR_LEN && |Spelled()| < 2 * MAX_STR_LEN
    }

    // What it changes: settings set a key, sections of entries open one.
    function Effect(st: State, merge: bool): (r: State)
      requires st.Ok()
      ensures r.Ok()
    {
      match this
      case Blank => st
      case Comment(mark, text) => st
      case Section(name) => st.Open(name)
      case Other(text) => st
      case Assign(key, before, after, val, trail) => st.Set(key, val, merge)
    }
  }

  predicate Spaces(s: string) {
    forall i :: 0 <= i < |s| ==> IsSpace(s[i])
  }

  predicate Blanks(s: string) {
    forall i :: 0 <= i < |s| ==> !NotBlank(s[i])
  }

  predicate NoNewline(s: string) {
    forall i :: 0 <= i < |s| ==> !IsNewline(s[i])
  }

  predicate NoBracket(s: string) {
    forall i :: 0 <= i < |s| ==> s[i] != ']'
  }

  // An item with its indentation and the character that ends its line.
  datatype TextLine = TextLine(indent: string, item: Item, end: char) {
    function Spelled(): string {
      indent + item.Spelled() + [end]
    }

    ghost predicate Sound() {
      Blanks(indent) && item.Sound() && IsNewline(end)
    }
  }

  function Text(lines: seq<TextLine>): string {
    if lines == [] then "" else lines[0].Spelled() + Text(lines[1..])
  }

  function Effects(lines: seq<TextLine>, st: State, merge: bool): (r: State)
    requires st.Ok()
    ensures r.Ok()
    decreases |lines|
  {
    if lines == [] then st else Effects(lines[1..], lines[0].item.Effect(st, merge), merge)
  }

  // ---- Parsing them ----

  lemma BlanksSkipped(pad: string, rest: string, st: State, merge: bool)
    requires Blanks(pad) && st.Ok()
    ensures Parse(pad + rest, st, merge) == Parse(rest, st, merge)
  {
    var n := Span(rest, NotBlank);
    hide Span, Parse;
    var text := pad + rest;
    assert forall i :: 0 <= i < n ==> text[|pad| + i] == rest[i];
    SpanIs(text, NotBlank, |pad| + n);
    assert text[|pad| + n..] == rest[n..];
    UnfoldParse(text, st, merge);
    UnfoldParse(rest, st, merge);
  }

  lemma CommentParsed(mark: char, text: string, rest: string, st: State, merge: bool)
    requires (mark == '#' || mark == ';') && NoNewline(text) && st.Ok() && (rest != "" ==> IsNewline(rest[0]))
    ensures Parse([mark] + text + rest, st, merge) == Parse(rest, st, merge)
  {
    hide Span, Parse;
    var all := [mark] + text + rest;
    SpanIs(all, NotBlank, 0);
    SpanIs(all, IsNewline, 1 + |text|);
    assert all[0..] == all && all[1 + |text|..] == rest;
    UnfoldParse(all, st, merge);
  }

  lemma OtherParsed(text: string, rest: string, st: State, merge: bool)
    requires NoBracket(text) && !(ENTRY_PREFIX <= text) && st.Ok()
    ensures Parse("[" + text + "]" + rest, st, merge) == Parse(rest, st, merge)
  {
    hide Span, Parse;
    var all := "[" + text + "]" + rest;
    SpanIs(all, NotBlank, 0);
    assert all[0..] == all && all[1..] == text + "]" + rest;
    SpanIs(all[1..], IsBracket, |text|);
    assert all[1..][|text|..][1..] == rest;
    PrefixEnds(text, rest);
    UnfoldParse(all, st, merge);
  }

  // A bracket cannot complete the prefix of an entry section.
  lemma PrefixEnds(text: string, rest: string)
    requires !(ENTRY_PREFIX <= text)
    ensures !(ENTRY_PREFIX <= text + "]" + rest)
  {
    var all := text + "]" + rest;
    if |text| < 6 {
      assert all[|text|] == ']' && ENTRY_PREFIX[|text|] != ']';
      assert |all| >= 6 ==> all[..6][|text|] == ']';
    } else {
      assert all[..6] == text[..6];
    }
  }

  lemma EntryParsedHere(name: string, rest: string, st: State, merge: bool)
    requires PlainName(name) && st.Ok()
    ensures Parse("[entry:" + name + "]" + rest, st, merge) == Parse(rest, st.Open(name), merge)
  {
    hide Span, Parse, State.Open;
    var text := "[entry:" + name + "]" + rest;
    SpanIs(text, NotBlank, 0);
    assert text[1..7] == ENTRY_PREFIX;
    assert text[7..] == name + "]" + rest;
    SpanIs(text[7..], EndsName, |name|);
    SpanIs(text[1..], IsBracket, 6 + |name|);
    assert text[7..][..|name|] == name;
    assert text[1..][6 + |name|..][1..] == rest;
    UnfoldParse(text, st, merge);
  }

  lemma {:induction false} TrailTrimmed(val: string, trail: string)
    requires PlainValue(val) && Spaces(trail)
    ensures Trimmed(val + trail) == val
    decreases |trail|
  {
    if trail == "" {
      assert val + trail == val;
    } else {
      var n := |trail| - 1;
      assert (val + trail)[..|val + trail| - 1] == val + trail[..n];
      TrailTrimmed(val, trail[..n]);
    }
  }

  lemma SpacedValue(key: string, before: string, after: string, val: string, trail: string)
    requires |key| < MAX_KEY_LEN && Spaces(before) && Spaces(after) && PlainValue(val) && Spaces(trail)
    requires |val + trail| < MAX_STR_LEN
    ensures ValueAfter(key, before + "=" + after + val + trail) == Some(KeyValue(key, val))
  {
    hide Span, Trimmed, Truncated, Skip;
    var line := after + val + trail;
    var all := before + "=" + line;
    assert before + "=" + after + val + trail == all;
    SkipSpaces(before, "=" + line);
    assert before + ("=" + line) == all && ("=" + line)[1..] == line;
    if val == "" {
      assert line == (after + trail) + "";
      SkipSpaces(after + trail, "");
      ValueEnds(key, all, line, "", "");
    } else {
      assert line == after + (val + trail);
      SkipSpaces(after, val + trail);
      ValueEnds(key, all, line, val, trail);
    }
  }

  lemma SkipSpaces(pad: string, more: string)
    requires Spaces(pad) && (more != "" ==> NotSpace(more[0]))
    ensures Skip(pad + more, NotSpace) == more
  {
    hide Span;
    SpanIs(pad + more, NotSpace, |pad|);
  }

  // What is read of a value once the scans have come to it.
  lemma ValueEnds(key: string, all: string, line: string, val: string, trail: string)
    requires |key| < MAX_KEY_LEN && PlainValue(val) && Spaces(trail) && |val + trail| < MAX_STR_LEN
    requires Skip(all, NotSpace) == "=" + line && Skip(line, NotSpace) == val + trail
    ensures ValueAfter(key, all) == Some(KeyValue(key, val))
  {
    hide Span, Trimmed, Skip;
    var c := val + trail;
    assert ("=" + line)[1..] == line;
    SpanIs(c, IsNewline, |c|);
    assert c[..|c|] == c;
    TrailTrimmed(val, trail);
  }

  lemma KeyEnds(key: string, more: string)
    requires PlainKey(key) && more != [] && EndsKey(more[0])
    ensures KeyValueOf(key + more) == ValueAfter(key, more)
  {
    hide Span, ValueAfter;
    var line := key + more;
    SpanIs(line, NotSpace, 0);
    SpanIs(line, EndsKey, |key|);
    assert line[0..] == line;
    assert line[..|key|] == key && line[|key|..] == more;
  }

  lemma AssignParsed(item: Item, rest: string, st: State, merge: bool)
    requires item.Assign? && item.Sound() && st.Ok() && (rest != "" ==> IsNewline(rest[0]))
    ensures Parse(item.Spelled() + rest, st, merge) == Parse(rest, st.Set(item.key, item.val, merge), merge)
  {
    hide Span, Parse, State.Set, KeyValueOf, ValueAfter;
    var line, more := item.Spelled(), item.before + "=" + item.after + item.val + item.trail;
    assert line == item.key + more;
    SpacedValue(item.key, item.before, item.after, item.val, item.trail);
    KeyEnds(item.key, more);
    LineTaken(line, rest);
    SpanIs(line + rest, NotBlank, 0);
    assert (line + rest)[0..] == line + rest;
    UnfoldParse(line + rest, st, merge);
  }

  // A line without a line end in it, short enough for the buffer.
  lemma LineTaken(line: string, rest: string)
    requires NoNewline(line) && |line| < 2 * MAX_STR_LEN && (rest != "" ==> IsNewline(rest[0]))
    ensures LineLength(line + rest) == |line| && (line + rest)[..|line|] == line && (line + rest)[|line|..] == rest
  {
    hide Span;
    SpanIs(line + rest, IsNewline, |line|);
  }

  lemma ItemParsed(item: Item, rest: string, st: State, merge: bool)
    requires item.Sound() && st.Ok() && (rest != "" ==> IsNewline(rest[0]))
    ensures Parse(item.Spelled() + rest, st, merge) == Parse(rest, item.Effect(st, merge), merge)
  {
    hide Parse, State.Set, State.Open;
    match item
    case Blank =>
      assert "" + rest == rest;
    case Comment(mark, text) =>
      CommentParsed(mark, text, rest, st, merge);
    case Section(name) =>
      EntryParsedHere(name, rest, st, merge);
    case Other(text) =>
      OtherParsed(text, rest, st, merge);
    case Assign(_, _, _, _, _) =>
      AssignParsed(item, rest, st, merge);
  }

  /** However a configuration is laid out, parsing it has the effects of its items, one after another. */
  lemma {:induction false} TextParsed(lines: seq<TextLine>, rest: string, st: State, merge: bool)
    requires (forall i :: 0 <= i < |lines| ==> lines[i].Sound()) && st.Ok()
    ensures Parse(Text(lines) + rest, st, merge) == Parse(rest, Effects(lines, st, merge), merge)
    decreases |lines|
  {
    hide Parse, Item.Spelled, Item.Effect, Item.Sound;
    if lines == [] {
      assert Text(lines) + rest == rest;
    } else {
      var l, more := lines[0], Text(lines[1..]) + rest;
      var next := l.item.Effect(st, merge);
      assert Text(lines) + rest == l.indent + (l.item.Spelled() + ([l.end] + more));
      BlanksSkipped(l.indent, l.item.Spelled() + ([l.end] + more), st, merge);
      ItemParsed(l.item, [l.end] + more, st, merge);
      BlanksSkipped([l.end], more, next, merge);
      TextParsed(lines[1..], rest, next, merge);
    }
  }
}
