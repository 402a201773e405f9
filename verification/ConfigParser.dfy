/** The loops of the configuration parser, and the configuration they fill in, proved against the
    parser over text. */
module ConfigParser {
  import opened Bytes
  import opened Config

  method SkipTo(text: string, p: nat, stop: char -> bool) returns (q: nat)
    requires p <= |text|
    ensures q == p + Span(text[p..], stop) && q <= |text|
  {
    q := p;
    while q < |text| && !stop(text[q])
      invariant p <= q <= |text| && forall i :: p <= i < q ==> !stop(text[i])
    {
      q := q + 1;
    }
    SpanIs(text[p..], stop, q - p);
  }

  // Copies up to a stop into a field of so many characters, dropping what does not fit.
  method CopyTo(text: string, p: nat, stop: char -> bool, max: nat) returns (q: nat, field: string)
    requires p <= |text| && max > 0
    ensures q == p + Span(text[p..], stop) && q <= |text|
    ensures field == Truncated(text[p..q], max)
  {
    q, field := p, "";
    while q < |text| && !stop(text[q])
      invariant p <= q <= |text| && forall i :: p <= i < q ==> !stop(text[i])
      invariant field == Truncated(text[p..q], max)
    {
      assert text[p..q + 1] == text[p..q] + [text[q]];
      if |field| + 1 < max {
        field := field + [text[q]];
      }
      q := q + 1;
    }
    SpanIs(text[p..], stop, q - p);
  }

  method StrCopy(src: string, max: nat) returns (field: string)
    requires max > 0
    ensures field == Truncated(src, max)
  {
    var i := 0;
    field := "";
    while i + 1 < max && i < |src|
      invariant 0 <= i <= |src| && i < max && field == src[..i]
    {
      field := field + [src[i]];
      i := i + 1;
    }
  }

  method ParseKv(line: string) returns (ok: bool, key: string, val: string)
    ensures KeyValueOf(line) == if ok then Some(KeyValue(key, val)) else None
  {
    hide Span;
    key, val := "", "";
    var p := SkipTo(line, 0, NotSpace);
    assert line[0..] == line;
    var a := p;
    p, key := CopyTo(line, p, EndsKey, MAX_KEY_LEN);
    assert line[a..][..p - a] == line[a..p] && line[a..][p - a..] == line[p..];
    if |key| == 0 {
      return false, key, val;
    }
    ok, val := ParseValue(line, p, key);
  }

  method ParseValue(line: string, start: nat, ghost key: string) returns (ok: bool, val: string)
    requires start <= |line| && |key| < MAX_KEY_LEN
    ensures ValueAfter(key, line[start..]) == if ok then Some(KeyValue(key, val)) else None
  {
    hide Span, Trimmed, Truncated, ValueAfter;
    val := "";
    var p := SkipTo(line, start, NotSpace);
    if p == |line| || line[p] != '=' {
      NoValue(line, start, p, key);
      return false, val;
    }
    var c := SkipTo(line, p + 1, NotSpace);
    var end;
    end, val := CopyTo(line, c, IsNewline, MAX_STR_LEN);
    ValueIs(line, start, p, c, end, key);
    val := TrimEnd(val);
    ok := true;
  }

  lemma NoValue(line: string, start: nat, p: nat, key: string)
    requires start <= p <= |line| && p == start + Span(line[start..], NotSpace) && (p == |line| || line[p] != '=')
    ensures ValueAfter(key, line[start..]) == None
  {
    hide Span;
    assert line[start..][p - start..] == line[p..];
  }

  // Where the value lies, from where the scans stop.
  lemma ValueIs(line: string, start: nat, p: nat, c: nat, end: nat, key: string)
    requires start <= p < c <= end <= |line| && line[p] == '=' && |key| < MAX_KEY_LEN
    requires p == start + Span(line[start..], NotSpace) && c == p + 1 + Span(line[p + 1..], NotSpace)
    requires end == c + Span(line[c..], IsNewline)
    ensures ValueAfter(key, line[start..]) ==
            Some(KeyValue(key, Trimmed(Truncated(line[c..end], MAX_STR_LEN))))
  {
    hide Span, Trimmed, Truncated, ValueAfter, Skip;
    SkipIs(line, start, p, NotSpace);
    SkipIs(line, p + 1, c, NotSpace);
    DropDrop(line, p, 1);
    AfterKey(key, line[start..], line[p..], line[c..]);
    assert line[c..][..end - c] == line[c..end];
  }

  lemma AfterKey(key: string, more: string, b: string, c: string)
    requires b == Skip(more, NotSpace) && b != [] && b[0] == '=' && c == Skip(b[1..], NotSpace) && |key| < MAX_KEY_LEN
    ensures ValueAfter(key, more) == Some(KeyValue(key, Trimmed(Truncated(c[..Span(c, IsNewline)], MAX_STR_LEN))))
  {
    hide Span, Trimmed, Skip;
  }

  lemma DropDrop(s: string, a: nat, b: nat)
    requires a + b <= |s|
    ensures s[a..][b..] == s[a + b..]
  {
  }

  method TrimEnd(s: string) returns (val: string)
    ensures val == Trimmed(s)
  {
    val := s;
    while |val| > 0 && IsSpace(val[|val| - 1])
      invariant Trimmed(val) == Trimmed(s)
    {
      val := val[..|val| - 1];
    }
  }

  lemma ModOfTimes(n: nat, d: nat)
    ensures (n % U32 * 10 + d) % U32 == (10 * n + d) % U32
  {
    assert 10 * n + d == n % U32 * 10 + d + 10 * (n / U32) * U32;
  }

  // The decimal number at the start of a value, in 32-bit arithmetic.
  method ParseU32(val: string) returns (t: nat)
    ensures t == LeadingNumber(val) % U32
  {
    t := 0;
    var i := 0;
    while i < |val| && '0' <= val[i] <= '9'
      invariant 0 <= i <= |val| && AllDigits(val[..i]) && t == Number(val[..i]) % U32
    {
      assert val[..i + 1][..i] == val[..i];
      ModOfTimes(Number(val[..i]), Digit(val[i]));
      t := (t * 10 + Digit(val[i])) % U32;
      i := i + 1;
    }
    SpanIs(val, NotDigit, i);
  }

  method ParseInt(val: string) returns (t: nat)
    ensures t == LeadingNumber(val)
  {
    t := 0;
    var i := 0;
    while i < |val| && '0' <= val[i] <= '9'
      invariant 0 <= i <= |val| && AllDigits(val[..i]) && t == Number(val[..i])
    {
      assert val[..i + 1][..i] == val[..i];
      t := t * 10 + Digit(val[i]);
      i := i + 1;
    }
    SpanIs(val, NotDigit, i);
  }

  // The rest of the line, as much as the line buffer holds.
  method CollectLine(text: string, p: nat) returns (q: nat, line: string)
    requires p < |text| && !IsNewline(text[p])
    ensures p < q <= |text| && line == text[p..][..LineLength(text[p..])] && text[q..] == text[p..][LineLength(text[p..])..]
  {
    hide Span;
    q, line := p, "";
    while q < |text| && !IsNewline(text[q]) && |line| + 1 < 2 * MAX_STR_LEN
      invariant p <= q <= |text| && line == text[p..q] && q - p < 2 * MAX_STR_LEN
      invariant forall i :: p <= i < q ==> !IsNewline(text[i])
    {
      line := line + [text[q]];
      q := q + 1;
    }
    LineIs(text, p, q);
  }

  class BootConfig {
    var timeout: nat
    var defaultEntry: nat
    var themeColor: nat
    var accentColor: nat
    var entries: seq<BootEntry>

    function View(): Settings
      reads this
    {
      Settings(timeout, defaultEntry, themeColor, accentColor, entries)
    }

    // The parser's state: the settings, and the entry that keys belong to, -1 for none.
    function StateOf(cur: int): State
      reads this
    {
      State(View(), cur >= 0)
    }

    // The current entry, if any, is the last.
    predicate Current(cur: int)
      reads this
    {
      cur == -1 || 0 <= cur == |entries| - 1
    }

    /** A full parse: the result depends on the text alone, and is in range. */
    method ConfigParse(text: string) returns (status: int)
      modifies this
      ensures View() == Parsed(text, old(View()), false)
      ensures View().Valid() && View().DefaultInRange()
      ensures status == if entries != [] then 0 else -1
    {
      ParseInRange(text, View());
      status := DoParse(text, false);
    }

    /** A merge: entries are appended, and nothing else changes. */
    method ConfigParseMerge(text: string) returns (status: int)
      requires View().Valid() && View().DefaultInRange()
      modifies this
      ensures View() == Parsed(text, old(View()), true)
      ensures View().Valid() && View().DefaultInRange()
      ensures old(entries) <= entries && timeout == old(timeout)
      ensures themeColor == old(themeColor) && accentColor == old(accentColor)
      ensures old(entries) != [] ==> defaultEntry == old(defaultEntry)
      ensures status == if entries != [] then 0 else -1
    {
      MergeOnlyAppends(text, View());
      status := DoParse(text, true);
    }

    method DoParse(text: string, merge: bool) returns (status: int)
      modifies this
      ensures View() == Parsed(text, old(View()), merge)
      ensures status == if entries != [] then 0 else -1
    {
      hide Skip, Span, AfterItem, PastItem, Parse;
      if !merge {
        timeout, defaultEntry, entries := DEFAULT_TIMEOUT, 0, [];
        themeColor, accentColor := DEFAULT_THEME, DEFAULT_ACCENT;
      }
      ghost var start := State(View(), false);
      var cur := -1;
      var p := 0;
      assert text[0..] == text;
      while p < |text|
        invariant 0 <= p <= |text| && Current(cur)
        invariant Parse(text[p..], StateOf(cur), merge) == Parse(text, start, merge)
      {
        UnfoldParse(text[p..], StateOf(cur), merge);
        var q := SkipTo(text, p, NotBlank);
        SkipIs(text, p, q, NotBlank);
        if q == |text| {
          NothingLeft(StateOf(cur), merge);
          p := q;
          break;
        }
        p, cur := ParseItem(text, q, cur, merge);
      }
      NothingLeft(StateOf(cur), merge);
      assert text[|text|..] == "";
      if defaultEntry >= |entries| && |entries| > 0 {
        defaultEntry := 0;
      }
      status := if |entries| > 0 then 0 else -1;
    }

    // A comment, a section header or a line.
    method ParseItem(text: string, p: nat, cur: int, merge: bool) returns (q: nat, next: int)
      requires p < |text| && NotBlank(text[p]) && Current(cur)
      modifies this
      ensures p < q <= |text| && Current(next)
      ensures text[q..] == PastItem(text[p..])
      ensures StateOf(next) == AfterItem(text[p..], old(StateOf(cur)), merge)
    {
      hide Span, State.SetLine, AfterSection, LineLength;
      var c := text[p];
      if c == '#' || c == ';' {
        q := SkipTo(text, p, IsNewline);
        SkipIs(text, p, q, IsNewline);
        next := cur;
      } else if c == '[' {
        q, next := ParseSection(text, p, cur);
      } else {
        var line;
        q, line := CollectLine(text, p);
        next := cur;
        ParseLine(line, cur, merge);
      }
    }

    method ParseSection(text: string, p: nat, cur: int) returns (q: nat, next: int)
      requires p < |text| && text[p] == '[' && Current(cur)
      modifies this
      ensures p < q <= |text| && Current(next)
      ensures text[q..] == PastItem(text[p..])
      ensures StateOf(next) == AfterSection(text[p..], old(StateOf(cur)))
    {
      hide AfterSection, Span, PastItem;
      var from;
      from, next := ParseHeader(text, p, cur);
      q := SkipTo(text, from, IsBracket);
      SectionEnds(text, p, from, q);
      if q < |text| && text[q] == ']' {
        q := q + 1;
      }
    }

    // The name of an entry, if this is one and there is room for it.
    method ParseHeader(text: string, p: nat, cur: int) returns (q: nat, next: int)
      requires p < |text| && text[p] == '[' && Current(cur)
      modifies this
      ensures p < q <= |text| && Current(next) && forall i :: p < i < q ==> text[i] != ']'
      ensures StateOf(next) == AfterSection(text[p..], old(StateOf(cur)))
    {
      hide Span;
      q, next := p + 1, cur;
      assert text[p..][1..] == text[q..];
      if ENTRY_PREFIX <= text[q..] {
        assert forall i :: 0 <= i < 6 ==> ENTRY_PREFIX[i] != ']' && text[q..][i] == text[q + i];
        q := q + 6;
        var end := q + Span(text[q..], EndsName);
        assert text[p..][7..] == text[q..] && text[q..][..end - q] == text[q..end];
        if |entries| < MAX_ENTRIES {
          var name;
          q, name := CopyTo(text, q, EndsName, MAX_STR_LEN);
          assert forall i :: p + 7 <= i < q ==> text[i] == text[p + 7..][i - (p + 7)];
          entries := entries + [BootEntry(name, Elf64, "", "", "", 0, "", DEFAULT_TRIES)];
          next := |entries| - 1;
        }
      }
    }

    method ParseLine(line: string, cur: int, merge: bool)
      requires Current(cur)
      modifies this
      ensures Current(cur) && StateOf(cur) == old(StateOf(cur)).SetLine(line, merge)
    {
      hide KeyValueOf, EntrySet, GlobalSet;
      var ok, key, val := ParseKv(line);
      if !ok {
        return;
      }
      if cur < 0 {
        if !merge {
          SetGlobal(key, val);
        }
      } else {
        var e := SetInEntry(entries[cur], key, val);
        entries := entries[cur := e];
      }
    }

    method SetGlobal(key: string, val: string)
      modifies this
      ensures View() == GlobalSet(old(View()), key, val)
    {
      hide LeadingNumber, ColorOf;
      if key == "timeout" {
        timeout := ParseU32(val);
      } else if key == "default" {
        defaultEntry := ParseU32(val);
      } else if key == "accent" {
        var c := ColorOf(val);
        if c >= 0 {
          accentColor := c;
        }
      } else if key == "theme" {
        var c := ColorOf(val);
        if c >= 0 && c <= 7 {
          themeColor := c;
        }
      }
    }
  }

  method SetInEntry(e: BootEntry, key: string, val: string) returns (r: BootEntry)
    ensures r == EntrySet(e, key, val)
  {
    hide LeadingNumber, TypeOf;
    r := e;
    if key == "type" {
      r := r.(osType := TypeOf(val));
    } else if key == "kernel" {
      var s := StrCopy(val, MAX_STR_LEN);
      r := r.(kernel := s);
    } else if key == "initrd" {
      var s := StrCopy(val, MAX_STR_LEN);
      r := r.(initrd := s);
    } else if key == "cmdline" {
      var s := StrCopy(val, MAX_STR_LEN);
      r := r.(cmdline := s);
    } else if key == "encrypted" {
      r := r.(encrypted := if SaysYes(val) then 1 else 0);
    } else if key == "luks_keyfile" {
      var s := StrCopy(val, MAX_STR_LEN);
      r := r.(luksKeyfile := s);
    } else if key == "luks_tries" {
      var t := ParseInt(val);
      r := r.(luksTries := if t > 0 then t else DEFAULT_TRIES);
    }
  }

  lemma SkipIs(text: string, p: nat, q: nat, stop: char -> bool)
    requires p <= q <= |text| && q == p + Span(text[p..], stop)
    ensures text[q..] == Skip(text[p..], stop)
  {
    assert text[p..][q - p..] == text[q..];
  }

  // A line ends where a newline follows or the line buffer is full.
  lemma LineIs(text: string, p: nat, q: nat)
    requires p <= q <= |text| && q - p < 2 * MAX_STR_LEN && forall i :: p <= i < q ==> !IsNewline(text[i])
    requires q == |text| || IsNewline(text[q]) || q - p == 2 * MAX_STR_LEN - 1
    ensures q - p == LineLength(text[p..])
    ensures text[p..][..q - p] == text[p..q] && text[p..][q - p..] == text[q..]
  {
    hide Span;
    var line := text[p..];
    assert forall i :: 0 <= i < |line| ==> line[i] == text[p + i];
    if q == |text| || IsNewline(text[q]) {
      SpanIs(line, IsNewline, q - p);
    }
  }

  // The text after a section header, the scan for its end starting anywhere before it.
  lemma SectionEnds(text: string, p: nat, from: nat, end: nat)
    requires p < from <= |text| && text[p] == '[' && forall i :: p < i < from ==> text[i] != ']'
    requires end == from + Span(text[from..], IsBracket) && end <= |text|
    ensures PastItem(text[p..]) == text[if end < |text| && text[end] == ']' then end + 1 else end..]
  {
    hide Span;
    assert forall i :: from <= i < end ==> text[i] == text[from..][i - from];
    assert text[p..][1..] == text[p + 1..];
    SpanIs(text[p + 1..], IsBracket, end - (p + 1));
    assert text[p + 1..][end - (p + 1)..] == text[end..];
  }
}
