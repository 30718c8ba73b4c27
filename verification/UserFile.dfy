/** The parser of /etc/users (src/apps/terminal/tty.c). */
module UserFile {
  import opened Bits
  import opened Text
  import opened Numbers

  // ----- The record in memory and the parser's state -----

  datatype Entry = Entry(userId: nat, username: seq<char>, password: seq<char>, groups: seq<seq<char>>, groupCount: nat)

  /** username[32], password[32], groups[8][32]. */
  predicate Sized(e: Entry) {
    |e.username| == 32 && |e.password| == 32 && |e.groups| == 8 && forall i :: 0 <= i < 8 ==> |e.groups[i]| == 32
  }

  /** field: 0 id, 1 name, 2 password, 3 groups, 4 and up nothing. `stray` records
      that a character was stored past the eighth group. */
  datatype Cursor = Cursor(e: Entry, field: nat, charI: nat, groupI: nat, groupCharI: nat, stray: bool)

  predicate InBounds(c: Cursor) {
    Sized(c.e) && c.charI <= 31 && c.groupI <= 8 && c.groupCharI <= 31
  }

  function Begin(e: Entry): Cursor
    requires Sized(e)
  {
    Cursor(e.(username := e.username[0 := NUL], password := e.password[0 := NUL], groupCount := 0, userId := 0),
           0, 0, 0, 0, false)
  }

  /** `groups[group_i][group_char_i] = c` */
  function PutGroup(e: Entry, g: nat, i: nat, c: char): (e': Entry)
    requires Sized(e) && g < 8 && i < 32
    ensures Sized(e')
  {
    e.(groups := e.groups[g := e.groups[g][i := c]])
  }

  function CloseGroup(c: Cursor): Cursor
    requires InBounds(c) && c.groupI < 8
  {
    c.(e := PutGroup(c.e, c.groupI, c.groupCharI, NUL).(groupCount := c.e.groupCount + 1),
       groupI := c.groupI + 1, groupCharI := 0)
  }

  /** Line 35-46: a colon ends the current field. */
  function EndField(c: Cursor): Cursor
    requires InBounds(c)
  {
    var d :=
      if c.field == 1 then c.(e := c.e.(username := c.e.username[c.charI := NUL]))
      else if c.field == 2 then c.(e := c.e.(password := c.e.password[c.charI := NUL]))
      else if c.field == 3 && c.groupCharI > 0 && c.groupI < 8 then CloseGroup(c)
      else c;
    d.(charI := 0, field := c.field + 1)
  }

  function Step(c: Cursor, x: char): (c': Cursor)
    requires InBounds(c)
    ensures InBounds(c')
    ensures c.stray ==> c'.stray
  {
    if x == ':' then EndField(c)
    else if c.field == 3 then
      if x == ',' && c.groupI < 8 then CloseGroup(c)
      else if c.groupCharI < 31 then
        if c.groupI < 8 then c.(e := PutGroup(c.e, c.groupI, c.groupCharI, x), groupCharI := c.groupCharI + 1)
        else c.(groupCharI := c.groupCharI + 1, stray := true)
      else c
    else if c.field == 1 && c.charI < 31 then
      c.(e := c.e.(username := c.e.username[c.charI := x]), charI := c.charI + 1)
    else if c.field == 2 && c.charI < 31 then
      c.(e := c.e.(password := c.e.password[c.charI := x]), charI := c.charI + 1)
    else if c.field == 0 && '0' <= x <= '9' then
      c.(e := c.e.(userId := (c.e.userId * 10 + (x as int - '0' as int)) % WORD))
    else c
  }

  function Fold(c: Cursor, s: string): (c': Cursor)
    requires InBounds(c)
    ensures InBounds(c')
    ensures c.stray ==> c'.stray
  {
    if s == "" then c else Step(Fold(c, s[..|s| - 1]), s[|s| - 1])
  }

  /** Lines 71-74: a last group not followed by a colon. */
  function Finish(c: Cursor): Entry
    requires InBounds(c)
  {
    if c.field == 3 && c.groupCharI > 0 && c.groupI < 8 then CloseGroup(c).e else c.e
  }

  /** One line parsed into the record memory e. */
  function ParseLine(line: string, e: Entry): Entry
    requires Sized(e)
  {
    Finish(Fold(Begin(e), line))
  }

  /** The records read from buf into the given slots, one per line. */
  function ParseAll(buf: string, slots: seq<Entry>): seq<Entry>
    requires forall i :: 0 <= i < |slots| ==> Sized(slots[i])
    decreases |slots|
  {
    if buf == "" || slots == [] then [] else
    [ParseLine(buf[..Cut(buf, '\n')], slots[0])] + ParseAll(Rest(buf, '\n'), slots[1..])
  }

  /** No line stores a character past its eighth group. */
  predicate NoStray(buf: string, slots: seq<Entry>)
    requires forall i :: 0 <= i < |slots| ==> Sized(slots[i])
    decreases |slots|
  {
    buf == "" || slots == [] ||
    (!Fold(Begin(slots[0]), buf[..Cut(buf, '\n')]).stray && NoStray(Rest(buf, '\n'), slots[1..]))
  }

  // ----- The code -----

  /** Lines 21-68 for the line that starts at `from`. */
  method ReadLine(buf: string, from: nat, e0: Entry, ghost line: string) returns (e: Entry, i: nat, stray: bool)
    requires from <= |buf| && Sized(e0) && line == buf[from..][..Cut(buf[from..], '\n')]
    ensures i == from + |line| && (stray <==> Fold(Begin(e0), line).stray)
    ensures !stray ==> e == ParseLine(line, e0)
  {
    e := e0.(username := e0.username[0 := NUL]);
    e := e.(password := e.password[0 := NUL]);
    e := e.(groupCount := 0, userId := 0);
    var field: nat, charI: nat, groupI: nat, groupCharI: nat := 0, 0, 0, 0;
    stray := false;
    i := from;
    ghost var d := Begin(e0);
    assert line[..0] == "";
    while i < |buf| && buf[i] != '\n'
      invariant from <= i <= from + |line| && InBounds(d) && d == Fold(Begin(e0), line[..i - from])
      invariant Tracks(Cursor(e, field, charI, groupI, groupCharI, stray), d)
    {
      InLine(buf, from, i, line);
      FoldNext(Begin(e0), line, i - from);
      e, field, charI, groupI, groupCharI, stray := ReadChar(buf[i], e, field, charI, groupI, groupCharI, stray, d);
      d := Step(d, buf[i]);
      i := i + 1;
    }
    CutIs(buf[from..], '\n', i - from);
    assert line[..i - from] == line;
    if field == 3 && groupCharI > 0 && groupI < 8 {
      e := e.(groups := e.groups[groupI := e.groups[groupI][groupCharI := NUL]]);
      e := e.(groupCount := e.groupCount + 1);
    }
  }

  /** The same stray stores, and without any the same record and counters. */
  predicate Tracks(c: Cursor, d: Cursor) {
    InBounds(c) && c.stray == d.stray && (!d.stray ==> c == d)
  }

  lemma InLine(buf: string, from: nat, i: nat, line: string)
    requires from <= i < |buf| && buf[i] != '\n' && line == buf[from..][..Cut(buf[from..], '\n')]
    requires i <= from + |line|
    ensures i < from + |line| && line[i - from] == buf[i]
  {
    assert buf[from..][i - from] == buf[i];
  }

  lemma {:induction false} FoldNext(c: Cursor, line: string, k: nat)
    requires InBounds(c) && k < |line|
    ensures Fold(c, line[..k + 1]) == Step(Fold(c, line[..k]), line[k])
  {
    assert line[..k + 1][..k] == line[..k];
  }

  /** The loop body, lines 33-67. Every store is within its array but one: behind the
      eighth group the code writes past groups. `stray` notes that, and nothing is
      promised of the record from then on: what C has hit is group_count. */
  method ReadChar(c: char, e0: Entry, field0: nat, charI0: nat, groupI0: nat, groupCharI0: nat, stray0: bool,
                  ghost d: Cursor)
    returns (e: Entry, field: nat, charI: nat, groupI: nat, groupCharI: nat, stray: bool)
    requires Tracks(Cursor(e0, field0, charI0, groupI0, groupCharI0, stray0), d) && InBounds(d)
    ensures Tracks(Cursor(e, field, charI, groupI, groupCharI, stray), Step(d, c)) && InBounds(Step(d, c))
  {
    e, field, charI, groupI, groupCharI, stray := e0, field0, charI0, groupI0, groupCharI0, stray0;
    if c == ':' {
      if field == 1 { e := e.(username := e.username[charI := NUL]); }
      else if field == 2 { e := e.(password := e.password[charI := NUL]); }
      else if field == 3 && groupCharI > 0 && groupI < 8 {
        e := e.(groups := e.groups[groupI := e.groups[groupI][groupCharI := NUL]]);
        e := e.(groupCount := e.groupCount + 1);
        groupI := groupI + 1;
        groupCharI := 0;
      }
      charI := 0;
      field := field + 1;
    } else if field == 3 {
      if c == ',' && groupI < 8 {
        e := e.(groups := e.groups[groupI := e.groups[groupI][groupCharI := NUL]]);
        e := e.(groupCount := e.groupCount + 1);
        groupI := groupI + 1;
        groupCharI := 0;
      } else if groupCharI < 31 {
        if groupI < 8 {
          e := e.(groups := e.groups[groupI := e.groups[groupI][groupCharI := c]]);
        } else {
          stray := true;
        }
        groupCharI := groupCharI + 1;
      }
    } else if field == 1 || field == 2 {
      if charI < 31 {
        if field == 1 { e := e.(username := e.username[charI := c]); }
        else { e := e.(password := e.password[charI := c]); }
        charI := charI + 1;
      }
    } else if field == 0 {
      if '0' <= c <= '9' {
        e := e.(userId := (e.userId * 10 + (c as int - '0' as int)) % WORD);
      }
    }
  }

  method PutEntry(out: array<Entry>, at: nat, e: Entry)
    requires at < out.Length
    modifies out
    ensures out[..at + 1] == old(out[..at]) + [e]
    ensures out[at + 1..] == old(out[at + 1..])
  {
    out[at] := e;
  }

  lemma PastNewline(buf: string, from: nat, i: nat)
    requires from <= |buf| && i == from + Cut(buf[from..], '\n')
    ensures i <= |buf| && (i < |buf| ==> buf[i] == '\n')
    ensures Rest(buf[from..], '\n') == buf[if i < |buf| then i + 1 else i..]
  {
  }

  /** One round of the outer loop, lines 17-76, for a given slot. */
  method ReadEntry(buf: string, from: nat, e0: Entry) returns (e: Entry, i: nat, stray: bool)
    requires from < |buf| && Sized(e0)
    ensures i <= |buf| && buf[i..] == Rest(buf[from..], '\n')
    ensures !stray ==> e == ParseLine(buf[from..][..Cut(buf[from..], '\n')], e0)
    ensures stray <==> Fold(Begin(e0), buf[from..][..Cut(buf[from..], '\n')]).stray
  {
    e, i, stray := ReadLine(buf, from, e0, buf[from..][..Cut(buf[from..], '\n')]);
    PastNewline(buf, from, i);
    if i < |buf| && buf[i] == '\n' { i := i + 1; }
  }

  /** What is still to be read completes what has been read. */
  ghost predicate Remaining(all: seq<Entry>, ok: bool, done: seq<Entry>, stray: bool, text: string, slots: seq<Entry>)
    requires forall i :: 0 <= i < |slots| ==> Sized(slots[i])
  {
    (ok <==> !stray && NoStray(text, slots)) && (!stray ==> all == done + ParseAll(text, slots))
  }

  lemma RemainingStep(all: seq<Entry>, ok: bool, done: seq<Entry>, stray: bool, text: string, slots: seq<Entry>,
                      e: Entry, past: bool)
    requires text != "" && slots != [] && forall i :: 0 <= i < |slots| ==> Sized(slots[i])
    requires Remaining(all, ok, done, stray, text, slots)
    requires past <==> Fold(Begin(slots[0]), text[..Cut(text, '\n')]).stray
    requires !past ==> e == ParseLine(text[..Cut(text, '\n')], slots[0])
    ensures Remaining(all, ok, done + [e], stray || past, Rest(text, '\n'), slots[1..])
  {
    if !past && !stray {
      var more := ParseAll(Rest(text, '\n'), slots[1..]);
      Concat3(done, [e], more);
    }
  }

  /** The records of the file, unless some line stored past its eighth group, which is
      so exactly if one of the first sixteen lines has an overfull group field. The C
      code has then overwritten a group_count, and nothing is promised. */
  method ParseUsers(buf: string, out: array<Entry>) returns (count: nat, stray: bool)
    requires out.Length == 16 && forall i :: 0 <= i < 16 ==> Sized(out[..][i])
    modifies out
    ensures count <= 16 && (!stray ==> out[..count] == ParseAll(buf, old(out[..])))
    ensures stray <==> OverfullAmong(Tokens(buf, '\n'), 16)
  {
    FileOverflowIff(buf, out[..]);
    stray := false;
    ghost var all := ParseAll(buf, out[..]);
    ghost var slots, ok := out[..], NoStray(buf, out[..]);
    var i: nat := 0;
    count := 0;
    assert buf[0..] == buf;
    while i < |buf| && count < 16
      invariant i <= |buf| && count <= 16 && slots == out[count..]
      invariant forall k :: 0 <= k < |slots| ==> Sized(slots[k])
      invariant Remaining(all, ok, out[..count], stray, buf[i..], slots)
      decreases 16 - count
    {
      ghost var done, text := out[..count], buf[i..];
      var e := out[count];
      assert slots[0] == e;
      var past: bool;
      e, i, past := ReadEntry(buf, i, e);
      RemainingStep(all, ok, done, stray, text, slots, e, past);
      stray := stray || past;
      PutEntry(out, count, e);
      slots := slots[1..];
      count := count + 1;
    }
  }

  // ----- The file format -----

  datatype User = User(id: nat, name: string, password: string, groups: seq<string>)

  predicate Clean(s: string) {
    |s| <= 31 && NUL !in s && ':' !in s && '\n' !in s
  }

  predicate GoodGroup(g: string) {
    g != "" && Clean(g) && ',' !in g
  }

  /** What the fixed-size record can hold. */
  predicate Storable(u: User) {
    && u.id < WORD && Clean(u.name) && Clean(u.password) && |u.groups| <= 8
    && forall i :: 0 <= i < |u.groups| ==> GoodGroup(u.groups[i])
  }

  /** `id:name:password:g1,g2:` */
  function Format(u: User): string {
    Numeral(u.id, 10) + ":" + (u.name + ":") + (u.password + ":") + (Join(u.groups, ",") + ":")
  }

  function FormatAll(users: seq<User>): string {
    if users == [] then "" else if |users| == 1 then Format(users[0])
    else Format(users[0]) + "\n" + FormatAll(users[1..])
  }

  /** The record holds this user. */
  predicate Holds(e: Entry, u: User) {
    && Sized(e) && e.userId == u.id
    && HasStr(e.username, 0, u.name) && HasStr(e.password, 0, u.password)
    && e.groupCount == |u.groups| <= 8
    && forall i :: 0 <= i < |u.groups| ==> HasStr(e.groups[i], 0, u.groups[i])
  }

  // ----- Parsing one line -----

  lemma {:induction false} FoldAppend(c: Cursor, s: string, t: string)
    requires InBounds(c)
    ensures Fold(c, s + t) == Fold(Fold(c, s), t)
    decreases |t|
  {
    if t == "" {
      assert s + t == s;
    } else {
      assert (s + t)[..|s + t| - 1] == s + t[..|t| - 1];
      FoldAppend(c, s, t[..|t| - 1]);
    }
  }

  lemma FoldOne(c: Cursor, x: char)
    requires InBounds(c)
    ensures Fold(c, [x]) == Step(c, x)
  {
    assert [x][..0] == "";
  }

  lemma FoldSnoc(c: Cursor, s: string, init: string, x: char)
    requires InBounds(c) && s == init + [x]
    ensures Fold(c, s) == Step(Fold(c, init), x)
  {
    assert s[..|s| - 1] == init;
  }

  /** As much of a text as a name has room for. */
  function Clipped(s: string): string {
    if |s| <= 31 then s else s[..31]
  }

  lemma ClippedSnoc(s: string, x: char)
    ensures Clipped(s + [x]) == if |s| < 31 then s + [x] else Clipped(s)
  {
  }

  /** One more character stored behind the first ones. */
  lemma PutNext(b0: seq<char>, b: seq<char>, t: string, x: char)
    requires |t| < |b0| && b == t + b0[|t|..]
    ensures b[|t| := x] == (t + [x]) + b0[|t| + 1..]
  {
  }

  lemma {:induction false} FoldName(c: Cursor, s: string)
    requires InBounds(c) && c.field == 1 && c.charI == 0 && ':' !in s
    ensures var d := Fold(c, s);
      d == c.(e := c.e.(username := d.e.username), charI := |Clipped(s)|) &&
      d.e.username == Clipped(s) + c.e.username[|Clipped(s)|..]
  {
    if s != "" {
      var init, x := s[..|s| - 1], s[|s| - 1];
      assert s == init + [x];
      FoldName(c, init);
      FoldSnoc(c, s, init, x);
      ClippedSnoc(init, x);
      if |init| < 31 { PutNext(c.e.username, Fold(c, init).e.username, init, x); }
    }
  }

  lemma {:induction false} FoldPassword(c: Cursor, s: string)
    requires InBounds(c) && c.field == 2 && c.charI == 0 && ':' !in s
    ensures var d := Fold(c, s);
      d == c.(e := c.e.(password := d.e.password), charI := |Clipped(s)|) &&
      d.e.password == Clipped(s) + c.e.password[|Clipped(s)|..]
  {
    if s != "" {
      var init, x := s[..|s| - 1], s[|s| - 1];
      assert s == init + [x];
      FoldPassword(c, init);
      FoldSnoc(c, s, init, x);
      ClippedSnoc(init, x);
      if |init| < 31 { PutNext(c.e.password, Fold(c, init).e.password, init, x); }
    }
  }

  /** One more character of a group, if it has room for it. */
  lemma StepGroup(c: Cursor, d: Cursor, t: string, x: char)
    requires InBounds(c) && InBounds(d) && c.field == 3 && c.groupI < 8 && x != ':' && x != ','
    requires GroupSoFar(c, d, t)
    ensures GroupSoFar(c, Step(d, x), t + [x])
  {
    ClippedSnoc(t, x);
    if |t| < 31 { PutNext(c.e.groups[c.groupI], d.e.groups[c.groupI], t, x); }
  }

  /** d is c with as much of t stored in the current group as there is room for. */
  predicate GroupSoFar(c: Cursor, d: Cursor, t: string)
    requires InBounds(c) && InBounds(d) && c.groupI < 8
  {
    && d == c.(e := c.e.(groups := c.e.groups[c.groupI := d.e.groups[c.groupI]]), groupCharI := |Clipped(t)|)
    && d.e.groups[c.groupI] == Clipped(t) + c.e.groups[c.groupI][|Clipped(t)|..]
  }

  lemma {:induction false} FoldGroup(c: Cursor, g: string)
    requires InBounds(c) && c.field == 3 && c.groupI < 8 && c.groupCharI == 0
    requires ':' !in g && ',' !in g
    ensures GroupSoFar(c, Fold(c, g), g)
  {
    if g != "" {
      var init, x := g[..|g| - 1], g[|g| - 1];
      assert g == init + [x];
      FoldGroup(c, init);
      FoldSnoc(c, g, init, x);
      StepGroup(c, Fold(c, init), init, x);
    }
  }

  // ----- The first three fields of any line -----

  /** The decimal digits of s, in order. */
  function OnlyDigits(s: string): string {
    if s == "" then "" else OnlyDigits(s[..|s| - 1]) + (if '0' <= s[|s| - 1] <= '9' then [s[|s| - 1]] else "")
  }

  lemma WrapDigit(v: nat, d: nat)
    ensures ((v % WORD) * 10 + d) % WORD == (v * 10 + d) % WORD
  {
    var q, r := v / WORD, (v % WORD) * 10 + d;
    DivModIs(r, WORD);
    Distribute(q * 10, r / WORD, WORD);
    DivModUnique(v * 10 + d, WORD, q * 10 + r / WORD, r % WORD);
  }

  /** v with one more character of the id field: another digit, or nothing. */
  function NextValue(v: nat, x: char): nat {
    if '0' <= x <= '9' then v * 10 + (x as int - '0' as int) else v
  }

  lemma ValueStep(s: string, init: string, x: char)
    requires s == init + [x]
    ensures Value(OnlyDigits(s), 10) == NextValue(Value(OnlyDigits(init), 10), x)
  {
    assert s[..|s| - 1] == init;
    if '0' <= x <= '9' {
      assert (OnlyDigits(init) + [x])[..|OnlyDigits(init)|] == OnlyDigits(init);
    } else {
      assert OnlyDigits(init) + "" == OnlyDigits(init);
    }
  }

  lemma IdStep(c: Cursor, x: char, v: nat)
    requires InBounds(c) && c.field == 0 && x != ':' && c.e.userId == v % WORD
    ensures Step(c, x) == c.(e := c.e.(userId := NextValue(v, x) % WORD))
  {
    if '0' <= x <= '9' { WrapDigit(v, x as int - '0' as int); }
  }

  /** Whatever else stands in the id field, its digits are the number, modulo 2^64. */
  lemma {:induction false} FoldAnyId(c: Cursor, s: string)
    requires InBounds(c) && c.field == 0 && c.e.userId == 0 && ':' !in s
    ensures Fold(c, s) == c.(e := c.e.(userId := Value(OnlyDigits(s), 10) % WORD))
  {
    if s != "" {
      var init, x := s[..|s| - 1], s[|s| - 1];
      assert s == init + [x];
      FoldAnyId(c, init);
      FoldSnoc(c, s, init, x);
      IdStep(Fold(c, init), x, Value(OnlyDigits(init), 10));
      ValueStep(s, init, x);
    }
  }

  /** A text field of any length and its colon: its first 31 characters, terminated. */
  predicate HoldsText(buf: seq<char>, s: string) {
    |buf| == 32 && buf[..|Clipped(s)|] == Clipped(s) && buf[|Clipped(s)|] == NUL
  }

  lemma AnyName(c: Cursor, s: string)
    requires InBounds(c) && c.field == 1 && c.charI == 0 && ':' !in s
    ensures var d := Fold(c, s + ":");
      d == c.(e := c.e.(username := d.e.username), field := 2) && HoldsText(d.e.username, s)
  {
    FoldName(c, s);
    FoldAppend(c, s, ":");
    FoldOne(Fold(c, s), ':');
  }

  lemma AnyPassword(c: Cursor, s: string)
    requires InBounds(c) && c.field == 2 && c.charI == 0 && ':' !in s
    ensures var d := Fold(c, s + ":");
      d == c.(e := c.e.(password := d.e.password), field := 3) && HoldsText(d.e.password, s)
  {
    FoldPassword(c, s);
    FoldAppend(c, s, ":");
    FoldOne(Fold(c, s), ':');
  }

  /** Same id, name and password. */
  predicate SamePerson(e: Entry, f: Entry) {
    e.userId == f.userId && e.username == f.username && e.password == f.password
  }

  /** The state behind the third colon. */
  lemma PersonRead(e: Entry, id: string, name: string, password: string) returns (c: Cursor)
    requires Sized(e) && ':' !in id && ':' !in name && ':' !in password
    ensures c == Fold(Begin(e), id + ":" + (name + ":") + (password + ":"))
    ensures InBounds(c) && c.field == 3 && c.groupI == c.e.groupCount == c.groupCharI == 0 && !c.stray
    ensures c.e.userId == Value(OnlyDigits(id), 10) % WORD
    ensures HoldsText(c.e.username, name) && HoldsText(c.e.password, password)
  {
    var c0 := Begin(e);
    FoldAnyId(c0, id);
    FoldAppend(c0, id, ":");
    FoldOne(Fold(c0, id), ':');
    var c1 := Fold(c0, id + ":");
    FoldAppend(c0, id + ":", name + ":");
    AnyName(c1, name);
    FoldAppend(c0, id + ":" + (name + ":"), password + ":");
    c := Fold(Fold(c1, name + ":"), password + ":");
    AnyPassword(Fold(c1, name + ":"), password);
  }

  // ----- The groups of any line -----

  /** In the group field with these groups stored. */
  predicate Stored(c: Cursor, done: seq<string>) {
    && InBounds(c) && !c.stray && c.field == 3 && c.groupCharI == 0
    && c.groupI == c.e.groupCount == |done| <= 8
    && forall i :: 0 <= i < |done| ==> HoldsText(c.e.groups[i], done[i])
  }

  /** The current group ended, by a comma, a colon or the end of the line. */
  lemma OneMoreGroup(c: Cursor, g: string, done: seq<string>)
    requires Stored(c, done) && |done| < 8 && ':' !in g && ',' !in g
    ensures var d := Fold(c, g);
      d.field == 3 && d.groupI < 8 && d.groupCharI == |Clipped(g)| && Stored(CloseGroup(d), done + [g]) &&
      SamePerson(CloseGroup(d).e, c.e)
  {
    FoldGroup(c, g);
    var d := Fold(c, g);
    var b := d.e.groups[c.groupI];
    assert b[|Clipped(g)| := NUL][..|Clipped(g)|] == b[..|Clipped(g)|] == Clipped(g);
  }

  /** As Finish has it, and a colon that ends the field. */
  function Closed(d: Cursor): Cursor
    requires InBounds(d)
  {
    if d.field == 3 && d.groupCharI > 0 && d.groupI < 8 then CloseGroup(d) else d
  }

  lemma LastGroup(c: Cursor, g: string, done: seq<string>)
    requires Stored(c, done) && |done| < 8 && ':' !in g && ',' !in g && g != ""
    ensures Fold(c, g).field == 3 && Stored(Closed(Fold(c, g)), done + [g]) && SamePerson(Closed(Fold(c, g)).e, c.e)
  {
    OneMoreGroup(c, g, done);
  }

  /** Over a group and its comma. */
  lemma CommaGroup(c: Cursor, g: string, rest: string, done: seq<string>) returns (d: Cursor)
    requires Stored(c, done) && |done| < 8 && ':' !in g && ',' !in g
    ensures Stored(d, done + [g]) && SamePerson(d.e, c.e) && Fold(c, g + ("," + rest)) == Fold(d, rest)
  {
    OneMoreGroup(c, g, done);
    d := CloseGroup(Fold(c, g));
    FoldAppend(c, g, "," + rest);
    FoldAppend(Fold(c, g), ",", rest);
    FoldOne(Fold(c, g), ',');
  }

  /** A text is its first token, the separator if there is one, and the rest. */
  lemma CutSplits(g: string, first: string, rest: string)
    requires first == g[..Cut(g, ',')] && rest == Rest(g, ',')
    ensures ',' !in first
    ensures first == g || g == first + ("," + rest)
    ensures first == g ==> rest == ""
  {
    var k := Cut(g, ',');
    if k < |g| {
      assert g == first + ([g[k]] + g[k + 1..]);
      assert |first| < |g|;
    }
  }

  lemma {:induction false} FoldAnyGroups(c: Cursor, g: string, done: seq<string>)
    requires Stored(c, done) && ':' !in g && |done| + |Tokens(g, ',')| <= 8
    ensures Fold(c, g).field == 3 && Stored(Closed(Fold(c, g)), done + Tokens(g, ','))
    ensures SamePerson(Closed(Fold(c, g)).e, c.e)
    decreases |g|
  {
    if g == "" {
      assert done + [] == done;
    } else {
      var first, rest := g[..Cut(g, ',')], Rest(g, ',');
      CutSplits(g, first, rest);
      if first == g {
        LastGroup(c, g, done);
        assert Tokens(g, ',') == [g];
      } else {
        var d := CommaGroup(c, first, rest, done);
        FoldAnyGroups(d, rest, done + [first]);
        Concat3(done, [first], Tokens(rest, ','));
      }
    }
  }

  lemma {:induction false} NothingMore(c: Cursor, s: string)
    requires InBounds(c) && c.field >= 4
    ensures Fold(c, s).e == c.e && Fold(c, s).field >= 4 && Fold(c, s).stray == c.stray
  {
    if s != "" {
      NothingMore(c, s[..|s| - 1]);
    }
  }

  /** From the start of the group field to the end of the line. */
  lemma GroupsOf(c: Cursor, g: string, rest: string)
    requires Stored(c, []) && ':' !in g && (rest == "" || rest[0] == ':') && |Tokens(g, ',')| <= 8
    ensures var d := Fold(c, g + rest);
      !d.stray && HoldsGroups(Finish(d), Tokens(g, ',')) && SamePerson(Finish(d), c.e)
  {
    FoldAnyGroups(c, g, []);
    assert [] + Tokens(g, ',') == Tokens(g, ',');
    FoldAppend(c, g, rest);
    EndOfGroups(Fold(c, g), rest);
  }

  lemma EndOfGroups(d: Cursor, rest: string)
    requires InBounds(d) && d.field == 3 && (rest == "" || rest[0] == ':')
    ensures Fold(d, rest).stray == d.stray && Finish(Fold(d, rest)) == Closed(d).e
  {
    if rest != "" {
      assert rest == ":" + rest[1..];
      FoldAppend(d, ":", rest[1..]);
      FoldOne(d, ':');
      NothingMore(Step(d, ':'), rest[1..]);
    }
  }

  predicate HoldsGroups(e: Entry, groups: seq<string>) {
    Sized(e) && e.groupCount == |groups| <= 8 && forall i :: 0 <= i < |groups| ==> HoldsText(e.groups[i], groups[i])
  }

  /** What any line with three colons is parsed to, in whatever memory, as long as its
      group field has no more than eight groups: the digits before the first colon as a
      number modulo 2^64, the next two fields as name and password, and the field behind
      the third cut at its commas as groups, an empty group at its end not counting;
      each text cut off after 31 characters. What follows a fourth colon is ignored. */
  lemma LineMeans(e: Entry, line: string, id: string, name: string, password: string, g: string, rest: string)
    requires Sized(e) && ':' !in id && ':' !in name && ':' !in password && ':' !in g
    requires (rest == "" || rest[0] == ':') && |Tokens(g, ',')| <= 8
    requires Line(line, id, name, password, g + rest)
    ensures !Fold(Begin(e), line).stray && Reads(ParseLine(line, e), id, name, password, Tokens(g, ','))
  {
    var c3 := PersonRead(e, id, name, password);
    FoldAppend(Begin(e), id + ":" + (name + ":") + (password + ":"), g + rest);
    GroupsOf(c3, g, rest);
  }

  predicate Line(line: string, id: string, name: string, password: string, tail: string) {
    line == id + ":" + (name + ":") + (password + ":") + tail
  }

  /** The record holds these fields as far as they fit. */
  predicate Reads(r: Entry, id: string, name: string, password: string, groups: seq<string>) {
    && r.userId == Value(OnlyDigits(id), 10) % WORD
    && HoldsText(r.username, name) && HoldsText(r.password, password) && HoldsGroups(r, groups)
  }

  /** A line that ends inside the name, or the password, does not terminate it: what the
      memory held shows behind it. */
  lemma NameUnterminated(e: Entry, id: string, name: string)
    requires Sized(e) && ':' !in id && ':' !in name && name != ""
    ensures ParseLine(id + ":" + name, e).username == Clipped(name) + e.username[|Clipped(name)|..]
  {
    var c0 := Begin(e);
    FoldAnyId(c0, id);
    FoldAppend(c0, id, ":");
    FoldOne(Fold(c0, id), ':');
    FoldAppend(c0, id + ":", name);
    FoldName(Fold(c0, id + ":"), name);
  }

  /** So the name read is the one written if and only if a NUL happens to follow. */
  lemma UnterminatedIff(e: Entry, id: string, name: string)
    requires Sized(e) && ':' !in id && name != "" && Clean(name)
    ensures HasStr(ParseLine(id + ":" + name, e).username, 0, name) <==> e.username[|name|] == NUL
  {
    NameUnterminated(e, id, name);
    var b := ParseLine(id + ":" + name, e).username;
    assert b == name + e.username[|name|..];
    forall j | 0 <= j < |name|
      ensures name[j] != NUL && b[j] == name[j]
    {
      assert name[j] in name;
    }
  }

  /** In memory that held a longer name, "ab" is not what is read. */
  lemma LeftoverName(e: Entry)
    requires Sized(e) && e.username[2] == 'x'
    ensures !HasStr(ParseLine("0:ab", e).username, 0, "ab")
  {
    assert "0" + ":" + "ab" == "0:ab";
    UnterminatedIff(e, "0", "ab");
  }

  // ----- One formatted line -----

  lemma {:induction false} AllKept(s: string)
    requires AllDigits(s)
    ensures OnlyDigits(s) == s
  {
    if s != "" {
      AllKept(s[..|s| - 1]);
    }
  }

  lemma TextHeld(buf: seq<char>, s: string)
    requires HoldsText(buf, s) && Clean(s)
    ensures HasStr(buf, 0, s)
  {
    forall j | 0 <= j < |s|
      ensures s[j] != NUL && buf[j] == s[j]
    {
      assert s[j] in s;
      assert buf[..|s|][j] == s[j];
    }
  }

  /** The groups joined by commas are cut apart again. */
  lemma {:induction false} TokensOfJoin(gs: seq<string>)
    requires forall i :: 0 <= i < |gs| ==> GoodGroup(gs[i])
    ensures Tokens(Join(gs, ","), ',') == gs && ':' !in Join(gs, ",") && (gs != [] ==> Join(gs, ",") != "")
  {
    if gs != [] {
      var g := gs[0];
      assert GoodGroup(g);
      if |gs| == 1 {
        OneToken(g, "");
        assert Join(gs, ",") == g + "" && Tokens("", ',') == [];
        assert gs == [g] + [];
      } else {
        forall i | 0 <= i < |gs[1..]| ensures GoodGroup(gs[1..][i]) {
          assert gs[1..][i] == gs[i + 1];
        }
        TokensOfJoin(gs[1..]);
        OneToken(g, "," + Join(gs[1..], ","));
        Concat3(g, ",", Join(gs[1..], ","));
        assert gs == [g] + gs[1..];
      }
    }
  }

  lemma OneToken(g: string, tail: string)
    requires g != "" && ',' !in g && (tail == "" || tail[0] == ',')
    ensures Tokens(g + tail, ',') == [g] + Tokens(if tail == "" then "" else tail[1..], ',')
  {
    forall j | 0 <= j < |g| ensures (g + tail)[j] != ',' {
      assert g[j] in g;
    }
    CutIs(g + tail, ',', |g|);
  }

  /** One formatted line, parsed into any record memory, gives the user back. */
  lemma LineRoundTrip(u: User, e: Entry)
    requires Storable(u) && Sized(e)
    ensures Holds(ParseLine(Format(u), e), u)
    ensures !Fold(Begin(e), Format(u)).stray
  {
    IdParts(u.id);
    TokensOfJoin(u.groups);
    PartsHeld(u, e, Numeral(u.id, 10), Join(u.groups, ","), Format(u));
  }

  lemma IdParts(v: nat)
    ensures Value(OnlyDigits(Numeral(v, 10)), 10) == v && ':' !in Numeral(v, 10)
  {
    NumeralSound(v, 10);
    NumeralIsInt(v);
    AllKept(Numeral(v, 10));
  }

  lemma PartsHeld(u: User, e: Entry, id: string, g: string, line: string)
    requires Storable(u) && Sized(e) && ':' !in id && ':' !in g
    requires Value(OnlyDigits(id), 10) == u.id && Tokens(g, ',') == u.groups
    requires Line(line, id, u.name, u.password, g + ":")
    ensures Holds(ParseLine(line, e), u) && !Fold(Begin(e), line).stray
  {
    LineMeans(e, line, id, u.name, u.password, g, ":");
    HeldByTexts(ParseLine(line, e), id, u);
  }

  lemma HeldByTexts(r: Entry, id: string, u: User)
    requires Storable(u) && Value(OnlyDigits(id), 10) == u.id && Reads(r, id, u.name, u.password, u.groups)
    ensures Holds(r, u)
  {
    TextHeld(r.username, u.name);
    TextHeld(r.password, u.password);
    forall i | 0 <= i < |u.groups| ensures HasStr(r.groups[i], 0, u.groups[i]) {
      TextHeld(r.groups[i], u.groups[i]);
    }
  }

  // ----- The whole file -----

  lemma {:induction false} JoinClean(gs: seq<string>)
    requires forall i :: 0 <= i < |gs| ==> GoodGroup(gs[i])
    ensures '\n' !in Join(gs, ",")
  {
    if |gs| > 1 {
      assert GoodGroup(gs[0]);
      forall i | 0 <= i < |gs[1..]| ensures GoodGroup(gs[1..][i]) {
        assert gs[1..][i] == gs[i + 1];
      }
      JoinClean(gs[1..]);
    } else if |gs| == 1 {
      assert GoodGroup(gs[0]);
    }
  }

  lemma FormatOneLine(u: User)
    requires Storable(u)
    ensures '\n' !in Format(u) && Format(u) != ""
  {
    NumeralIsInt(u.id);
    JoinClean(u.groups);
  }

  lemma {:induction false} FirstLine(users: seq<User>)
    requires users != [] && Storable(users[0])
    ensures var buf := FormatAll(users);
      buf != "" && buf[..Cut(buf, '\n')] == Format(users[0]) && Rest(buf, '\n') == FormatAll(users[1..])
  {
    var buf, line := FormatAll(users), Format(users[0]);
    FormatOneLine(users[0]);
    if |users| == 1 {
      assert buf == line;
      NoCut(line, "");
    } else {
      assert buf == line + ("\n" + FormatAll(users[1..]));
      NoCut(line, "\n" + FormatAll(users[1..]));
    }
  }

  lemma NoCut(line: string, tail: string)
    requires '\n' !in line && (tail != "" ==> tail[0] == '\n')
    ensures Cut(line + tail, '\n') == |line| && (line + tail)[..|line|] == line
    ensures Rest(line + tail, '\n') == if tail == "" then "" else tail[1..]
  {
    forall j | 0 <= j < |line| ensures (line + tail)[j] != '\n' {
      assert line[j] in line;
    }
    CutIs(line + tail, '\n', |line|);
  }

  /** Parser and format undo each other: a file of storable users, read into any
      record memory, gives back the same users in order (as many as there are
      slots), with every store in bounds. */
  lemma {:induction false} FileRoundTrip(users: seq<User>, slots: seq<Entry>)
    requires forall i :: 0 <= i < |users| ==> Storable(users[i])
    requires forall i :: 0 <= i < |slots| ==> Sized(slots[i])
    ensures NoStray(FormatAll(users), slots)
    ensures HoldInOrder(ParseAll(FormatAll(users), slots), users, |slots|)
    decreases |slots|
  {
    if users != [] && slots != [] {
      FirstLine(users);
      LineRoundTrip(users[0], slots[0]);
      FileRoundTrip(users[1..], slots[1..]);
      OneMoreHeld(ParseLine(Format(users[0]), slots[0]), ParseAll(FormatAll(users[1..]), slots[1..]), users, |slots|);
    }
  }

  /** As many users, in order, as there are slots for. */
  ghost predicate HoldInOrder(es: seq<Entry>, users: seq<User>, slots: nat) {
    |es| == (if |users| < slots then |users| else slots) && forall i :: 0 <= i < |es| ==> Holds(es[i], users[i])
  }

  lemma OneMoreHeld(e: Entry, es: seq<Entry>, users: seq<User>, slots: nat)
    requires users != [] && slots > 0 && Holds(e, users[0]) && HoldInOrder(es, users[1..], slots - 1)
    ensures HoldInOrder([e] + es, users, slots)
  {
    forall i | 1 <= i < |es| + 1
      ensures Holds(([e] + es)[i], users[i])
    {
      assert Holds(es[i - 1], users[1..][i - 1]);
    }
  }

  /** The kernel's own instance: sixteen slots hold any list of up to sixteen users. */
  method ReadBack(users: seq<User>, out: array<Entry>) returns (count: nat, stray: bool)
    requires |users| <= 16 && forall i :: 0 <= i < |users| ==> Storable(users[i])
    requires out.Length == 16 && forall i :: 0 <= i < 16 ==> Sized(out[..][i])
    modifies out
    ensures !stray && count == |users| && forall i :: 0 <= i < count ==> Holds(out[i], users[i])
  {
    FileRoundTrip(users, out[..]);
    FileOverflowIff(FormatAll(users), out[..]);
    ghost var es := ParseAll(FormatAll(users), out[..]);
    count, stray := ParseUsers(FormatAll(users), out);
    forall i | 0 <= i < count ensures out[i] == es[i] {
      assert out[..count][i] == es[i];
    }
  }

  // ----- Looking a user up -----

  /** Two buffers hold the same string. */
  method Streql(a: seq<char>, b: seq<char>, ghost s: string, ghost t: string) returns (eq: bool)
    requires HasStr(a, 0, s) && HasStr(b, 0, t)
    ensures eq <==> s == t
  {
    var k := 0;
    CharAt(a, 0, s, 0);
    CharAt(b, 0, t, 0);
    while a[k] != NUL && b[k] != NUL
      invariant k <= |s| && k <= |t| && s[..k] == t[..k]
      invariant (a[k] == NUL <==> k == |s|) && (b[k] == NUL <==> k == |t|)
      decreases |s| - k
    {
      CharAt(a, 0, s, k);
      CharAt(b, 0, t, k);
      if a[k] != b[k] { return false; }
      k := k + 1;
      CharAt(a, 0, s, k);
      CharAt(b, 0, t, k);
    }
    return a[k] == NUL && b[k] == NUL;
  }

  /** Index of the first user of this name, or -1: lookup by name on the parsed
      records is lookup by name in the list they came from. */
  method FindUser(name: seq<char>, users: array<Entry>, count: nat, ghost s: string, ghost list: seq<User>)
    returns (found: int)
    requires HasStr(name, 0, s) && count == |list| <= users.Length
    requires forall i :: 0 <= i < count ==> Holds(users[i], list[i])
    ensures -1 <= found < count
    ensures found >= 0 ==> list[found].name == s && forall j :: 0 <= j < found ==> list[j].name != s
    ensures found == -1 ==> forall j :: 0 <= j < count ==> list[j].name != s
  {
    for i := 0 to count
      invariant forall j :: 0 <= j < i ==> list[j].name != s
    {
      var eq := Streql(users[i].username, name, list[i].name, s);
      if eq { return i; }
    }
    return -1;
  }

  // ----- Exactly when the groups overflow -----

  function Commas(s: string): nat {
    if s == "" then 0 else Commas(s[..|s| - 1]) + if s[|s| - 1] == ',' then 1 else 0
  }

  /** From the start of the group field, text g stores past the eighth group if and
      only if something follows its eighth comma. */
  lemma {:induction false} OverflowIff(c: Cursor, g: string)
    requires Stored(c, []) && ':' !in g
    ensures var d := Fold(c, g);
      d.field == 3 && d.groupI == (if Commas(g) < 8 then Commas(g) else 8) &&
      (d.groupI == 8 && !d.stray ==> d.groupCharI == 0) &&
      (d.stray <==> g != "" && Commas(g[..|g| - 1]) >= 8)
  {
    if g != "" {
      var init, x := g[..|g| - 1], g[|g| - 1];
      assert x in g;
      assert forall y :: y in init ==> y in g;
      OverflowIff(c, init);
      if init != "" { assert Commas(init) >= Commas(init[..|init| - 1]); }
    }
  }

  function Colons(s: string): nat {
    if s == "" then 0 else Colons(s[..|s| - 1]) + if s[|s| - 1] == ':' then 1 else 0
  }

  /** No group has been begun. */
  predicate NoGroupYet(c: Cursor) {
    c.groupI == 0 && c.groupCharI == 0 && c.e.groupCount == 0 && !c.stray
  }

  lemma {:induction false} BeforeGroups(e: Entry, s: string)
    requires Sized(e)
    ensures var d := Fold(Begin(e), s);
      d.field == Colons(s) && (Colons(s) < 3 || (Colons(s) == 3 && s[|s| - 1] == ':') ==> NoGroupYet(d))
  {
    if s != "" {
      BeforeGroups(e, s[..|s| - 1]);
    }
  }

  /** A line whose group field is g (behind the third colon, up to the fourth or the
      end) stores out of bounds if and only if something in g follows its eighth
      comma. */
  lemma LineOverflowIff(e: Entry, head: string, g: string, rest: string)
    requires Sized(e) && ':' !in g && (rest == "" || rest[0] == ':')
    requires Colons(head) == 3 && head[|head| - 1] == ':'
    ensures Fold(Begin(e), head + g + rest).stray <==> NineGroups(g)
  {
    BeforeGroups(e, head);
    var c := Fold(Begin(e), head);
    OverflowIff(c, g);
    FoldAppend(Begin(e), head, g);
    FoldAppend(Begin(e), head + g, rest);
    if rest != "" { RestIsQuiet(Fold(c, g), rest); }
  }

  /** Behind the colon that ends the groups nothing is stored. */
  lemma RestIsQuiet(d: Cursor, rest: string)
    requires InBounds(d) && d.field == 3 && rest != "" && rest[0] == ':'
    ensures Fold(d, rest).stray == d.stray
  {
    assert rest == ":" + rest[1..];
    FoldAppend(d, ":", rest[1..]);
    FoldOne(d, ':');
    NothingMore(Step(d, ':'), rest[1..]);
  }

  /** A ninth group of one character. */
  lemma NinthGroup(e: Entry)
    requires Sized(e)
    ensures Fold(Begin(e), "0:a:b:" + ",,,,,,,,x").stray
  {
    LiteralCounts();
    LineOverflowIff(e, "0:a:b:", ",,,,,,,,x", "");
    assert "0:a:b:" + ",,,,,,,,x" + "" == "0:a:b:" + ",,,,,,,,x";
  }

  lemma LiteralCounts()
    ensures Colons("0:a:b:") == 3
    ensures Commas(",,,,,,,,x"[..8]) == 8
  {
    assert "0:a:b:"[..5] == "0:a:b" && "0:a:b"[..4] == "0:a:" && "0:a:"[..3] == "0:a";
    assert "0:a"[..2] == "0:" && "0:"[..1] == "0" && "0"[..0] == "";
    assert ",,,,,,,,x"[..8] == ",,,,,,,,";
    assert ",,,,,,,,"[..7] == ",,,,,,," && ",,,,,,,"[..6] == ",,,,,," && ",,,,,,"[..5] == ",,,,,";
    assert ",,,,,"[..4] == ",,,," && ",,,,"[..3] == ",,," && ",,,"[..2] == ",," && ",,"[..1] == ",";
    assert ","[..0] == "";
    assert Commas(",,,") == 3;
    assert Commas(",,,,,,") == 6;
  }

  /** A line that never reaches the group field stores nothing out of bounds. */
  lemma ShortLineSafe(e: Entry, line: string)
    requires Sized(e) && Colons(line) < 3
    ensures !Fold(Begin(e), line).stray
  {
    BeforeGroups(e, line);
  }

  // ----- Overfull lines of a file -----

  /** There are more than eight groups exactly if something follows the eighth comma. */
  lemma {:induction false} NineTokens(g: string)
    ensures NineGroups(g) <==> |Tokens(g, ',')| > 8
  {
    TokenCount(g);
  }

  lemma {:induction false} TokenCount(g: string)
    ensures |Tokens(g, ',')| == if g == "" then 0 else Commas(g[..|g| - 1]) + 1
    decreases |g|
  {
    if g != "" {
      var first, rest := g[..Cut(g, ',')], Rest(g, ',');
      CutSplits(g, first, rest);
      TokenCount(rest);
      if first == g {
        assert forall x :: x in g[..|g| - 1] ==> x in g;
        NoCommas(g[..|g| - 1]);
        assert Tokens(g, ',') == [g];
      } else {
        AfterComma(g, first, rest);
      }
    }
  }

  lemma AfterComma(g: string, first: string, rest: string)
    requires g == first + ("," + rest) && ',' !in first
    ensures g[..|g| - 1] == if rest == "" then first else first + ("," + rest[..|rest| - 1])
    ensures Commas(g[..|g| - 1]) == if rest == "" then 0 else 1 + Commas(rest[..|rest| - 1])
  {
    NoCommas(first);
    if rest == "" {
      assert g[..|g| - 1] == first;
    } else {
      var init := rest[..|rest| - 1];
      assert g[..|g| - 1] == first + ("," + init);
      CommasAppend(first, "," + init);
      CommasAppend(",", init);
      assert ","[..0] == "";
    }
  }

  lemma {:induction false} CommasAppend(s: string, t: string)
    ensures Commas(s + t) == Commas(s) + Commas(t)
    decreases |t|
  {
    if t == "" {
      assert s + t == s;
    } else {
      assert (s + t)[..|s + t| - 1] == s + t[..|t| - 1];
      CommasAppend(s, t[..|t| - 1]);
    }
  }

  lemma {:induction false} NoCommas(s: string)
    requires ',' !in s
    ensures Commas(s) == 0
  {
    if s != "" {
      assert s[|s| - 1] in s;
      assert forall x :: x in s[..|s| - 1] ==> x in s;
      NoCommas(s[..|s| - 1]);
    }
  }


  /** What follows the first n colons. */
  function AfterColons(s: string, n: nat): string
    decreases n
  {
    if n == 0 then s else AfterColons(Rest(s, ':'), n - 1)
  }

  /** The text between the third colon and the fourth, or the end. */
  function GroupField(line: string): string {
    var g := AfterColons(line, 3);
    g[..Cut(g, ':')]
  }

  /** Something follows the eighth comma. */
  predicate NineGroups(g: string) {
    g != "" && Commas(g[..|g| - 1]) >= 8
  }

  predicate Overfull(line: string) {
    NineGroups(GroupField(line))
  }

  lemma {:induction false} ColonsAppend(s: string, t: string)
    ensures Colons(s + t) == Colons(s) + Colons(t)
    decreases |t|
  {
    if t == "" {
      assert s + t == s;
    } else {
      assert (s + t)[..|s + t| - 1] == s + t[..|t| - 1];
      ColonsAppend(s, t[..|t| - 1]);
    }
  }

  lemma {:induction false} NoColons(s: string)
    requires ':' !in s
    ensures Colons(s) == 0
  {
    if s != "" {
      assert s[|s| - 1] in s;
      assert forall x :: x in s[..|s| - 1] ==> x in s;
      NoColons(s[..|s| - 1]);
    }
  }

  lemma OneColon()
    ensures Colons(":") == 1
  {
    assert ":"[..0] == "";
  }

  /** Up to and with the first colon, then what follows it. */
  lemma FirstColon(s: string) returns (field: string)
    ensures s == field + Rest(s, ':') && Colons(field) <= 1
    ensures Colons(field) == 1 ==> EndsWith(field, ':')
    ensures Rest(s, ':') != "" ==> Colons(field) == 1
  {
    var k := Cut(s, ':');
    NoColons(s[..k]);
    if k < |s| {
      field := s[..k] + ":";
      OneColon();
      ColonsAppend(s[..k], ":");
    } else {
      field := s;
      assert s[..k] == s;
    }
  }

  /** The first n fields, and what is behind them. */
  lemma {:induction false} FirstFields(s: string, n: nat) returns (head: string)
    ensures s == head + AfterColons(s, n) && Colons(head) <= n
    ensures AfterColons(s, n) != "" ==> Colons(head) == n
    ensures n > 0 && Colons(head) == n ==> EndsWith(head, ':')
    decreases n
  {
    if n == 0 {
      head := "";
    } else {
      var field := FirstColon(s);
      var more := FirstFields(Rest(s, ':'), n - 1);
      head := field + more;
      ColonsAppend(field, more);
      Concat3(field, more, AfterColons(s, n));
      NothingAfter(n - 1);
      if n == 1 { assert field + "" == field; }
    }
  }

  lemma {:induction false} NothingAfter(n: nat)
    ensures AfterColons("", n) == ""
  {
    if n > 0 {
      NothingAfter(n - 1);
    }
  }

  /** A line stores out of bounds if and only if its group field is overfull. */
  lemma OverfullIff(e: Entry, line: string)
    requires Sized(e)
    ensures Fold(Begin(e), line).stray <==> Overfull(line)
  {
    var head := FirstFields(line, 3);
    var g := AfterColons(line, 3);
    if g == "" {
      assert line == head;
      BeforeGroups(e, line);
    } else {
      BehindColons(e, head, g);
    }
  }

  lemma BehindColons(e: Entry, head: string, g: string)
    requires Sized(e) && Colons(head) == 3 && EndsWith(head, ':')
    ensures Fold(Begin(e), head + g).stray <==> NineGroups(g[..Cut(g, ':')])
  {
    var k := Cut(g, ':');
    Concat3(head, g[..k], g[k..]);
    assert g == g[..k] + g[k..];
    LineOverflowIff(e, head, g[..k], g[k..]);
  }

  /** One of the first n is bad. */
  ghost predicate Among<T>(bad: T -> bool, xs: seq<T>, n: nat) {
    exists i :: 0 <= i < |xs| && i < n && bad(xs[i])
  }

  lemma AmongCons<T>(bad: T -> bool, x: T, rest: seq<T>, n: nat)
    requires n > 0
    ensures Among(bad, [x] + rest, n) <==> bad(x) || Among(bad, rest, n - 1)
  {
    var xs := [x] + rest;
    if Among(bad, xs, n) && !bad(x) {
      var i :| 0 <= i < |xs| && i < n && bad(xs[i]);
      assert bad(rest[i - 1]);
    }
    if bad(x) { assert bad(xs[0]); }
    if Among(bad, rest, n - 1) {
      var i :| 0 <= i < |rest| && i < n - 1 && bad(rest[i]);
      assert bad(xs[i + 1]);
    }
  }

  /** One of the first n lines is overfull. */
  ghost predicate OverfullAmong(lines: seq<string>, n: nat) {
    Among(Overfull, lines, n)
  }

  /** So a file does if and only if one of the lines read is overfull. */
  lemma {:induction false} FileOverflowIff(buf: string, slots: seq<Entry>)
    requires forall i :: 0 <= i < |slots| ==> Sized(slots[i])
    ensures NoStray(buf, slots) <==> !OverfullAmong(Tokens(buf, '\n'), |slots|)
    decreases |slots|
  {
    if buf != "" && slots != [] {
      var line, rest := buf[..Cut(buf, '\n')], Rest(buf, '\n');
      OverfullIff(slots[0], line);
      FileOverflowIff(rest, slots[1..]);
      AmongCons(Overfull, line, Tokens(rest, '\n'), |slots|);
    }
  }
}
