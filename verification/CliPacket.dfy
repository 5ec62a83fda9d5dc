/** Command line packets: printing, and the state machine that parses them. */
module CliPackets {
  import opened Basics
  import opened Strings

  /** A member's value: a text, or anything else by what it prints as. */
  datatype Value = Text(s: string) | Other(s: string)

  datatype Packet = Packet(action: string, obj: string, members: map<string, Value>)

  predicate IsWordChar(c: char) {
    'a' <= c <= 'z' || 'A' <= c <= 'Z' || c == '_' || '0' <= c <= '9'
  }

  // ---------------------------------------------------------------- printing

  function Quote(v: Value): string { if v.Text? then "\"" else "" }

  function Printed1(v: Value): string { Quote(v) + Escaped(v.s) + Quote(v) }

  /** The members in a given order, with commas between. */
  ghost function Items(m: map<string, Value>, ks: seq<string>): string
    requires forall k | k in ks :: k in m
  {
    if ks == [] then ""
    else ks[0] + "=" + Printed1(m[ks[0]]) + (if |ks| > 1 then "," else "") + Items(m, ks[1..])
  }

  ghost predicate Lists(ks: seq<string>, m: map<string, Value>) {
    (forall k :: k in ks <==> k in m) && (forall i, j | 0 <= i < j < |ks| :: ks[i] != ks[j])
  }

  /** `toString`, with the members in the order `ks`. */
  ghost function Printed(p: Packet, ks: seq<string>): string
    requires Lists(ks, p.members)
  {
    if p.action == "" then ""
    else
      p.action + (if p.obj == "" then "" else " " + p.obj) + (if ks == [] then "" else " ") +
      Items(p.members, ks) + ";"
  }

  // ---------------------------------------------------------------- parsing

  /** The local variables of the member loop. */
  datatype St = St(name: bool, quote: bool, trans: bool, key: string, value: string, str: string,
    members: map<string, string>)

  /** `insert`: an entry that is there stays. */
  function Insert(m: map<string, string>, k: string, v: string): map<string, string> {
    if k in m then m else m[k := v]
  }

  /** One character; `last` when the end of the text follows. */
  function Step(st: St, c: char, last: bool): St {
    if st.name then
      if c == '=' then st.(key := st.str, name := false, str := "")
      else if IsSpace(c) then st
      else st.(str := st.str + [c])
    else if st.quote then
      if st.trans then st.(str := st.str + [c], trans := false)
      else if c == '\\' then st.(trans := true)
      else if c == '"' || last then st.(value := st.str, quote := false)
      else st.(str := st.str + [c])
    else if IsSpace(c) then st
    else if c == '"' then st.(quote := true)
    else if c == ',' || last then
      St(true, false, st.trans, "", "", "", Insert(st.members, Trim(st.key), if c != ',' then st.str + [c] else st.str))
    else st.(str := st.str + [c])
  }

  ghost function Run(st: St, s: string): St
    decreases |s|
  {
    if s == "" then st else Run(Step(st, s[0], |s| == 1), s[1..])
  }

  function Start(): St { St(true, false, false, "", "", "", map[]) }

  function Finish(st: St): map<string, string> {
    if st.key != "" then Insert(st.members, Trim(st.key), st.value) else st.members
  }

  /** Without the space in front. */
  function Skipped(s: string): (t: string)
    ensures t == "" || !IsSpace(t[0])
    ensures s != "" && !IsSpace(s[0]) ==> t == s
  {
    if s == "" then "" else if IsSpace(s[0]) then Skipped(s[1..]) else s
  }

  /** How many word characters stand in front. */
  function WordLength(s: string): (n: nat)
    ensures n <= |s| && (forall i | 0 <= i < n :: IsWordChar(s[i])) && (n < |s| ==> !IsWordChar(s[n]))
  {
    if s == "" || !IsWordChar(s[0]) then 0 else 1 + WordLength(s[1..])
  }

  predicate EndsWord(s: string, n: nat)
    requires n <= |s|
  {
    n == |s| || IsSpace(s[n])
  }

  datatype Parsed = Parsed(action: string, obj: string, members: map<string, string>)

  /** The text behind the action: an object if a whole word stands there, then members. */
  ghost function ParsedRest(action: string, s: string): Parsed {
    var n := WordLength(s);
    if EndsWord(s, n) then Parsed(action, s[..n], Finish(Run(Start(), Skipped(s[n..]))))
    else Parsed(action, "", Finish(Run(Start(), s)))
  }

  /** The command without surrounding space and one closing semicolon. */
  function Body(cmd: string): string {
    var t := Trim(cmd);
    if t != "" && t[|t| - 1] == ';' then t[..|t| - 1] else t
  }

  /** `parse`: what the fields become, or `None` for failure. */
  ghost function ParseOf(cmd: string): Option<Parsed> {
    if Body(cmd) == "" then None
    else
      var c := Skipped(CStr(Body(cmd)));
      var n := WordLength(c);
      if !EndsWord(c, n) then None else Some(ParsedRest(c[..n], Skipped(c[n..])))
  }

  // ---------------------------------------------------------------- reading back one member

  predicate Plain(s: string) { forall i | 0 <= i < |s| :: !IsSpace(s[i]) && s[i] != '\0' }

  predicate GoodKey(k: string) {
    k != "" && Plain(k) && forall i | 0 <= i < |k| :: k[i] != '='
  }

  /** Values without NUL; those that are not texts without space, comma or quote. */
  predicate FairValue(v: Value) {
    NoNul(v.s) && (v.Other? ==> forall i | 0 <= i < |v.s| :: !IsSpace(v.s[i]) && v.s[i] != ',' && v.s[i] != '"')
  }

  predicate NoBackslash(s: string) { forall i | 0 <= i < |s| :: s[i] != '\\' }

  predicate GoodValue(v: Value) {
    FairValue(v) && (v.Text? ==> NoBackslash(v.s))
  }

  ghost predicate FairMembers(m: map<string, Value>) {
    forall k | k in m :: GoodKey(k) && FairValue(m[k])
  }

  /** No text with a backslash. */
  ghost predicate GoodMembers(m: map<string, Value>) {
    forall k | k in m :: GoodKey(k) && GoodValue(m[k])
  }

  predicate Word(s: string) { forall i | 0 <= i < |s| :: IsWordChar(s[i]) }

  ghost predicate Fair(p: Packet) {
    p.action != "" && Word(p.action) && Word(p.obj) && FairMembers(p.members)
  }

  lemma RunStep(st: St, c: char, rest: string)
    ensures Run(st, [c] + rest) == Run(Step(st, c, rest == ""), rest)
  {
    assert ([c] + rest)[1..] == rest;
  }

  lemma Front(s: string, rest: string)
    requires s != ""
    ensures s + rest == [s[0]] + (s[1..] + rest) && s == [s[0]] + s[1..]
  {
  }

  lemma MoreStr(a: string, v: string)
    requires v != ""
    ensures (a + [v[0]]) + v[1..] == a + v
  {
  }

  /** Letters of a name pile up. */
  lemma {:induction false} RunName(st: St, k: string, rest: string)
    requires st.name && rest != "" && Plain(k) && forall i | 0 <= i < |k| :: k[i] != '='
    ensures Run(st, k + rest) == Run(st.(str := st.str + k), rest)
    decreases |k|
  {
    if k == "" {
      assert k + rest == rest && st.str + k == st.str;
    } else {
      Front(k, rest);
      RunStep(st, k[0], k[1..] + rest);
      MoreStr(st.str, k);
      hide Run;
      RunName(st.(str := st.str + [k[0]]), k[1..], rest);
    }
  }

  /** So do those of a quoted text, escapes undone. */
  lemma {:induction false} RunQuoted(st: St, v: string, rest: string)
    requires !st.name && st.quote && !st.trans && rest != "" && forall i | 0 <= i < |v| :: v[i] != '\\'
    ensures Run(st, Escaped(v) + rest) == Run(st.(str := st.str + v), rest)
    decreases |v|
  {
    if v == "" {
      assert Escaped(v) + rest == rest && st.str + v == st.str;
    } else {
      var more := Escaped(v[1..]) + rest;
      EscapedFront(v, rest);
      if v[0] == '"' {
        RunStep(st, '\\', ['"'] + more);
        RunStep(st.(trans := true), '"', more);
      } else {
        RunStep(st, v[0], more);
      }
      MoreStr(st.str, v);
      hide Run, Escaped;
      RunQuoted(st.(str := st.str + [v[0]]), v[1..], rest);
    }
  }

  lemma EscapedFront(v: string, rest: string)
    requires v != ""
    ensures var more := Escaped(v[1..]) + rest;
            Escaped(v) + rest == if v[0] == '"' then ['\\'] + (['"'] + more) else [v[0]] + more
  {
  }

  /** And those of a value without quotes. */
  lemma {:induction false} RunPlain(st: St, v: string, rest: string)
    requires !st.name && !st.quote && rest != ""
    requires forall i | 0 <= i < |v| :: !IsSpace(v[i]) && v[i] != ',' && v[i] != '"'
    ensures Run(st, v + rest) == Run(st.(str := st.str + v), rest)
    decreases |v|
  {
    if v == "" {
      assert v + rest == rest && st.str + v == st.str;
    } else {
      Front(v, rest);
      RunStep(st, v[0], v[1..] + rest);
      MoreStr(st.str, v);
      hide Run;
      RunPlain(st.(str := st.str + [v[0]]), v[1..], rest);
    }
  }

  lemma {:induction false} EscapedPlain(v: string)
    requires forall i | 0 <= i < |v| :: v[i] != '"'
    ensures Escaped(v) == v
  {
    if v != "" {
      EscapedPlain(v[1..]);
    }
  }

  lemma TrimPlain(k: string)
    requires GoodKey(k)
    ensures Trim(k) == k
  {
  }

  /** The states in which a name, and a value, begin. */
  function AtName(m: map<string, string>): St { St(true, false, false, "", "", "", m) }
  function AtValue(m: map<string, string>, k: string): St { St(false, false, false, k, "", "", m) }

  lemma RunKey(m: map<string, string>, k: string, rest: string)
    requires GoodKey(k)
    ensures Run(AtName(m), k + "=" + rest) == Run(AtValue(m, k), rest)
  {
    assert k + "=" + rest == k + (['='] + rest);
    RunName(AtName(m), k, ['='] + rest);
    assert "" + k == k;
    RunStep(AtName(m).(str := k), '=', rest);
    hide Run;
  }

  /** The value as printed, up to its closing quote if it has one. */
  lemma RunValue(m: map<string, string>, k: string, v: Value, rest: string)
    requires GoodValue(v) && rest != ""
    ensures Run(AtValue(m, k), Printed1(v) + rest) ==
            Run(if v.Text? then AtValue(m, k).(value := v.s, str := v.s) else AtValue(m, k).(str := v.s), rest)
  {
    hide Run, Escaped, Printed1, NoNul, NoBackslash;
    if v.Text? {
      RunText(m, k, v.s, rest);
    } else {
      PlainPrinted(v.s);
      assert "" + v.s == v.s;
      RunPlain(AtValue(m, k), v.s, rest);
    }
  }

  lemma PlainPrinted(v: string)
    requires forall i | 0 <= i < |v| :: v[i] != '"'
    ensures Printed1(Other(v)) == v
  {
    EscapedPlain(v);
  }

  lemma RunText(m: map<string, string>, k: string, v: string, rest: string)
    requires NoBackslash(v) && rest != ""
    ensures Run(AtValue(m, k), Printed1(Text(v)) + rest) == Run(AtValue(m, k).(value := v, str := v), rest)
  {
    var st, tail := AtValue(m, k), ['"'] + rest;
    assert Printed1(Text(v)) + rest == ['"'] + (Escaped(v) + tail) && "" + v == v;
    hide Run, Escaped, Printed1;
    RunStep(st, '"', Escaped(v) + tail);
    RunQuoted(st.(quote := true), v, tail);
    RunStep(st.(quote := true, str := v), '"', rest);
  }

  /** A space counts inside quotes only. */
  lemma SpaceCounts(st: St, c: char, rest: string)
    requires (c == ' ' || c == '\t' || c == '\n' || c == '\r') && rest != ""
    ensures st.name || !st.quote ==> Run(st, [c] + rest) == Run(st, rest)
    ensures !st.name && st.quote ==> Run(st, [c] + rest) == Run(st.(str := st.str + [c], trans := false), rest)
  {
    RunStep(st, c, rest);
    hide Run;
  }

  lemma ItemThenMore(m: map<string, string>, k: string, v: Value, rest: string)
    requires GoodKey(k) && GoodValue(v)
    ensures Run(AtName(m), k + "=" + Printed1(v) + "," + rest) == Run(AtName(Insert(m, k, v.s)), rest)
  {
    hide Run, Escaped, GoodKey, GoodValue, Insert, Trim, Printed1;
    var tail := [','] + rest;
    assert k + "=" + Printed1(v) + "," + rest == k + "=" + (Printed1(v) + tail);
    RunKey(m, k, Printed1(v) + tail);
    RunValue(m, k, v, tail);
    TrimPlain(k);
    RunStep(if v.Text? then AtValue(m, k).(value := v.s, str := v.s) else AtValue(m, k).(str := v.s), ',', rest);
  }

  /** A space behind the last value loses it, unless it is quoted: `k=5 ;` gives the empty text for `k`. */
  lemma SpaceLosesValue(m: map<string, string>, k: string, v: string)
    requires GoodKey(k) && forall i | 0 <= i < |v| :: !IsSpace(v[i]) && v[i] != ',' && v[i] != '"'
    ensures Finish(Run(AtName(m), k + "=" + v + " ")) == Insert(m, k, "")
  {
    var st := AtValue(m, k).(str := v);
    assert k + "=" + v + " " == k + "=" + (v + " ") && [' '] + "" == " ";
    RunKey(m, k, v + " ");
    RunPlain(AtValue(m, k), v, " ");
    assert "" + v == v;
    RunStep(st, ' ', "");
    assert Run(st, "") == st;
    TrimPlain(k);
    hide Run, Trim, GoodKey, Insert;
  }

  /** A quoted text without its closing quote loses its last character. */
  lemma OpenQuoteLosesLast(m: map<string, string>, k: string, v: string, c: char)
    requires GoodKey(k) && c != '"' && c != '\\' && forall i | 0 <= i < |v| :: v[i] != '"' && v[i] != '\\'
    ensures Finish(Run(AtName(m), k + "=" + ("\"" + v + [c]))) == Insert(m, k, v)
  {
    var st := AtValue(m, k);
    RunKey(m, k, "\"" + v + [c]);
    EscapedPlain(v);
    TrimPlain(k);
    assert "\"" + v + [c] == ['"'] + (Escaped(v) + [c]) && "" + v == v && [c] + "" == [c];
    RunStep(st, '"', Escaped(v) + [c]);
    RunQuoted(st.(quote := true), v, [c]);
    RunStep(st.(quote := true, str := v), c, "");
    assert Run(st.(value := v, str := v), "") == st.(value := v, str := v);
    hide Run, Trim, GoodKey, Insert, Escaped;
  }

  /** Inside quotes a backslash takes the next character as it is. */
  lemma EscapeTakes(st: St, c: char, rest: string)
    requires !st.name && st.quote && !st.trans && rest != ""
    ensures Run(st, "\\" + ([c] + rest)) == Run(st.(str := st.str + [c]), rest)
  {
    assert "\\" + ([c] + rest) == ['\\'] + ([c] + rest);
    RunStep(st, '\\', [c] + rest);
    RunStep(st.(trans := true), c, rest);
    hide Run;
  }

  /** The characters of actions and objects. */
  lemma WordChars(c: char)
    ensures IsWordChar(c) <==>
              48 <= c as int <= 57 || 65 <= c as int <= 90 || 97 <= c as int <= 122 || c as int == 95
  {
  }

  /** Of two members with one name the first stays. */
  lemma FirstStays(m: map<string, string>, k: string, v: string, w: string)
    ensures Insert(Insert(m, k, v), k, w) == Insert(m, k, v) && k in Insert(m, k, v)
    ensures k !in m ==> Insert(m, k, v)[k] == v
    ensures forall j | j in m :: j in Insert(m, k, v) && Insert(m, k, v)[j] == m[j]
  {
  }

  lemma ItemAtEnd(m: map<string, string>, k: string, v: Value)
    requires GoodKey(k) && GoodValue(v)
    ensures Finish(Run(AtName(m), k + "=" + Printed1(v))) == Insert(m, k, v.s)
  {
    RunKey(m, k, Printed1(v));
    TrimPlain(k);
    hide Run, Insert, Trim, Finish, GoodKey;
    if v.Text? {
      LastText(m, k, v.s);
    } else {
      LastPlain(m, k, v.s);
      EscapedPlain(v.s);
      assert Printed1(v) == v.s;
    }
  }

  lemma LastText(m: map<string, string>, k: string, v: string)
    requires GoodKey(k) && NoBackslash(v)
    ensures Finish(Run(AtValue(m, k), Printed1(Text(v)))) == Insert(m, Trim(k), v)
  {
    var st := AtValue(m, k);
    hide Insert, Trim;
    assert Printed1(Text(v)) == ['"'] + (Escaped(v) + ['"']);
    RunStep(st, '"', Escaped(v) + ['"']);
    RunQuoted(st.(quote := true), v, ['"']);
    assert "" + v == v && ['"'] + "" == ['"'];
    RunStep(st.(quote := true, str := v), '"', "");
    hide Escaped, Printed1;
  }

  lemma LastPlain(m: map<string, string>, k: string, v: string)
    requires GoodKey(k) && GoodValue(Other(v))
    ensures Finish(Run(AtValue(m, k), v)) == Insert(m, Trim(k), v)
  {
    if v != "" {
      var init, c := v[..|v| - 1], v[|v| - 1];
      assert v == init + [c] && [c] + "" == [c] && "" + init == init;
      RunPlain(AtValue(m, k), init, [c]);
      RunStep(AtValue(m, k).(str := init), c, "");
    }
  }

  /** All members, inserted one after the other. */
  ghost function InsertAll(m: map<string, string>, ms: map<string, Value>, ks: seq<string>): map<string, string>
    requires forall k | k in ks :: k in ms
    decreases |ks|
  {
    if ks == [] then m else InsertAll(Insert(m, ks[0], ms[ks[0]].s), ms, ks[1..])
  }

  lemma {:induction false} RunItems(m: map<string, string>, ms: map<string, Value>, ks: seq<string>)
    requires ks != [] && (forall k | k in ks :: k in ms) && GoodMembers(ms)
    ensures Finish(Run(AtName(m), Items(ms, ks))) == InsertAll(m, ms, ks)
    decreases |ks|
  {
    var k, v := ks[0], ms[ks[0]];
    assert GoodKey(k) && GoodValue(v);
    hide Run, Finish, Insert, GoodKey, GoodValue, Printed1;
    if |ks| == 1 {
      assert Items(ms, ks) == k + "=" + Printed1(v);
      ItemAtEnd(m, k, v);
    } else {
      ItemThenMore(m, k, v, Items(ms, ks[1..]));
      RunItems(Insert(m, k, v.s), ms, ks[1..]);
    }
  }

  /** The members with their values as text. */
  ghost function Texts(ms: map<string, Value>): map<string, string> {
    map k | k in ms :: ms[k].s
  }

  lemma {:induction false} InsertAllIs(m: map<string, string>, ms: map<string, Value>, ks: seq<string>)
    requires (forall k | k in ks :: k in ms && k !in m) && (forall i, j | 0 <= i < j < |ks| :: ks[i] != ks[j])
    ensures var r := InsertAll(m, ms, ks);
            && (forall k :: k in r <==> k in m || k in ks)
            && (forall k | k in m :: r[k] == m[k]) && (forall k | k in ks :: r[k] == ms[k].s)
    decreases |ks|
  {
    if ks != [] {
      assert ks == [ks[0]] + ks[1..];
      assert ks[0] !in ks[1..];
      InsertAllIs(Insert(m, ks[0], ms[ks[0]].s), ms, ks[1..]);
    }
  }

  lemma AllItems(ms: map<string, Value>, ks: seq<string>)
    requires Lists(ks, ms) && GoodMembers(ms)
    ensures Finish(Run(Start(), Items(ms, ks))) == Texts(ms)
  {
    InsertAllTexts(ms, ks);
    if ks == [] {
      NothingLeft(Start(), Items(ms, ks));
    } else {
      hide *;
      RunItems(map[], ms, ks);
    }
  }

  lemma InsertAllTexts(ms: map<string, Value>, ks: seq<string>)
    requires Lists(ks, ms)
    ensures InsertAll(map[], ms, ks) == Texts(ms)
  {
    InsertAllIs(map[], ms, ks);
    hide InsertAll;
  }

  // ---------------------------------------------------------------- reading back a packet

  lemma {:induction false} EscapedNoNul(s: string)
    requires NoNul(s)
    ensures NoNul(Escaped(s))
  {
    if s != "" {
      EscapedNoNul(s[1..]);
    }
  }

  lemma {:induction false} ItemsNoNul(ms: map<string, Value>, ks: seq<string>)
    requires (forall k | k in ks :: k in ms) && FairMembers(ms)
    ensures NoNul(Items(ms, ks))
  {
    if ks != [] {
      var k, v := ks[0], ms[ks[0]];
      assert GoodKey(k) && FairValue(v);
      EscapedNoNul(v.s);
      hide Escaped, FairMembers, FairValue;
      ItemsNoNul(ms, ks[1..]);
      assert NoNul(Printed1(v));
    }
  }

  /** A word in front is found, whole. */
  lemma {:induction false} WordInFront(w: string, rest: string)
    requires Word(w) && (rest == "" || !IsWordChar(rest[0]))
    ensures WordLength(w + rest) == |w|
  {
    if w == "" {
      assert w + rest == rest;
    } else {
      assert (w + rest)[1..] == w[1..] + rest;
      WordInFront(w[1..], rest);
    }
  }

  lemma WordIsNotSpace(c: char)
    ensures IsWordChar(c) ==> !IsSpace(c) && c != '\0'
  {
  }

  /** What stands between the action and the semicolon. */
  ghost function Inner(p: Packet, ks: seq<string>): string
    requires Lists(ks, p.members)
  {
    (if p.obj == "" then "" else " " + p.obj) + (if ks == [] then "" else " ") + Items(p.members, ks)
  }

  lemma InnerNoNul(p: Packet, ks: seq<string>)
    requires Fair(p) && Lists(ks, p.members)
    ensures NoNul(p.action + Inner(p, ks))
  {
    ItemsNoNul(p.members, ks);
    WordsNoNul(p.action);
    WordsNoNul(p.obj);
    var items := Items(p.members, ks);
    var obj, gap := if p.obj == "" then "" else " " + p.obj, if ks == [] then "" else " ";
    assert NoNul(gap) && NoNul(" ") && NoNul("");
    hide NoNul, Items, FairMembers, Word;
    NoNulSum(" ", p.obj);
    NoNulSum(obj, gap);
    NoNulSum(obj + gap, items);
    NoNulSum(p.action, obj + gap + items);
  }

  lemma WordsNoNul(w: string)
    requires Word(w)
    ensures NoNul(w)
  {
  }

  lemma NoNulSum(a: string, b: string)
    requires NoNul(a) && NoNul(b)
    ensures NoNul(a + b)
  {
  }

  lemma BodyOfPrinted(p: Packet, ks: seq<string>)
    requires Fair(p) && Lists(ks, p.members)
    ensures Body(Printed(p, ks)) == p.action + Inner(p, ks) != ""
  {
    var t, b := Printed(p, ks), p.action + Inner(p, ks);
    hide Items, FairMembers, Lists;
    assert t == b + ";";
    assert IsWordChar(t[0]);
    WordIsNotSpace(t[0]);
    assert t[|t| - 1] == ';';
    hide TrimLeft, TrimRight;
    assert Trim(t) == t;
    assert t[..|t| - 1] == b;
  }

  /** The text behind an empty object does not read as one. */
  lemma NoObject(ms: map<string, Value>, ks: seq<string>)
    requires Lists(ks, ms) && FairMembers(ms) && ks != []
    ensures var s := Items(ms, ks); var n := WordLength(s); s != "" && !IsSpace(s[0]) && !EndsWord(s, n)
  {
    var k := ks[0];
    assert k in ks;
    assert GoodKey(k);
    KeyIsNotWord(k, Printed1(ms[k]) + (if |ks| > 1 then "," else "") + Items(ms, ks[1..]));
    hide Printed1, WordLength, GoodKey;
    assert Items(ms, ks) == k + "=" + (Printed1(ms[k]) + (if |ks| > 1 then "," else "") + Items(ms, ks[1..]));
  }

  lemma KeyIsNotWord(k: string, rest: string)
    requires GoodKey(k)
    ensures var s := k + "=" + rest; !IsSpace(s[0]) && !EndsWord(s, WordLength(s))
  {
    var s := k + "=" + rest;
    var n := WordLength(s);
    assert s[|k|] == '=' && !IsWordChar(s[|k|]);
    assert n <= |k| && !IsSpace(s[n]);
  }

  /** The object comes back, and the text of the members goes to the loop. */
  lemma RestOfPrinted(p: Packet, ks: seq<string>)
    requires Fair(p) && Lists(ks, p.members)
    ensures ParsedRest(p.action, Skipped(Inner(p, ks))) ==
            Parsed(p.action, p.obj, Finish(Run(Start(), Items(p.members, ks))))
  {
    var items, none := Items(p.members, ks), ks == [];
    assert none ==> items == "";
    if !none {
      NoObject(p.members, ks);
    }
    InnerIs(p, ks);
    hide *;
    if p.obj == "" {
      NoneRead(p.action, items, none);
    } else {
      ObjectRead(p.action, p.obj, items, none);
    }
  }

  lemma InnerIs(p: Packet, ks: seq<string>)
    requires Fair(p) && Lists(ks, p.members)
    ensures Word(p.obj)
    ensures var tail := Behind(Items(p.members, ks), ks == []);
            Inner(p, ks) == if p.obj == "" then tail else [' '] + (p.obj + tail)
  {
    assert ks == [] ==> Items(p.members, ks) == "";
    hide Items, Word, FairMembers, Lists;
  }

  function Behind(items: string, none: bool): string { if none then "" else [' '] + items }

  lemma NoneRead(action: string, items: string, none: bool)
    requires if none then items == "" else items != "" && !IsSpace(items[0]) && !EndsWord(items, WordLength(items))
    ensures ParsedRest(action, Skipped(Behind(items, none))) == Parsed(action, "", Finish(Run(Start(), items)))
  {
    if !none {
      SkipSpace(items);
    }
    hide Run, Finish;
  }

  /** A named object is found, and what stands behind it. */
  lemma ObjectRead(action: string, obj: string, items: string, none: bool)
    requires Word(obj) && obj != "" && (if none then items == "" else items != "" && !IsSpace(items[0]))
    ensures ParsedRest(action, Skipped([' '] + (obj + Behind(items, none))))
            == Parsed(action, obj, Finish(Run(Start(), items)))
  {
    var tail := Behind(items, none);
    WordIsNotSpace(obj[0]);
    assert (obj + tail)[0] == obj[0];
    hide Run, Finish;
    SkipSpace(obj + tail);
    WordInFront(obj, tail);
    assert (obj + tail)[..|obj|] == obj && (obj + tail)[|obj|..] == tail;
    if !none {
      SkipSpace(items);
    }
  }

  lemma SkipSpace(s: string)
    requires s == "" || !IsSpace(s[0])
    ensures Skipped([' '] + s) == s
  {
    assert ([' '] + s)[1..] == s;
    assert Skipped(s) == s;
  }

  /** Action and object come back; the members are what the loop makes of their text. */
  lemma PrintedParses(p: Packet, ks: seq<string>)
    requires Fair(p) && Lists(ks, p.members)
    ensures ParseOf(Printed(p, ks)) == Some(Parsed(p.action, p.obj, Finish(Run(Start(), Items(p.members, ks)))))
  {
    var inner := Inner(p, ks);
    var c := p.action + inner;
    BodyOfPrinted(p, ks);
    InnerNoNul(p, ks);
    CStrSame(c);
    RestOfPrinted(p, ks);
    WordIsNotSpace(p.action[0]);
    assert c[0] == p.action[0];
    InnerStarts(p, ks);
    WordInFront(p.action, inner);
    hide *;
    assert c[..|p.action|] == p.action && c[|p.action|..] == inner;
    ParseSteps(Printed(p, ks), c, p.action, inner);
  }

  lemma InnerStarts(p: Packet, ks: seq<string>)
    requires Fair(p) && Lists(ks, p.members)
    ensures Inner(p, ks) == "" || Inner(p, ks)[0] == ' '
  {
    hide FairMembers;
    if ks == [] {
      assert Items(p.members, ks) == "";
    }
  }

  lemma ParseSteps(cmd: string, c: string, action: string, inner: string)
    requires Body(cmd) == c != "" && CStr(c) == c && !IsSpace(c[0]) && c == action + inner
    requires WordLength(c) == |action| && (inner == "" || inner[0] == ' ')
    ensures ParseOf(cmd) == Some(ParsedRest(action, Skipped(inner)))
  {
    assert Skipped(c) == c;
    hide Body, CStr, Skipped, WordLength, ParsedRest;
    assert c[..|action|] == action && c[|action|..] == inner;
  }

  // ---------------------------------------------------------------- what a backslash does

  /** Member `k` will not come back as `v`: it is recorded otherwise, or what has been read for it is no
      beginning of `v`. */
  ghost predicate Lost(st: St, k: string, v: string) {
    if k in st.members then st.members[k] != v
    else !st.name && st.key == k && st.value != v && !(st.str <= v)
  }

  lemma {:induction false} LostForGood(st: St, k: string, v: string, rest: string)
    requires GoodKey(k) && Lost(st, k, v)
    ensures var r := Finish(Run(st, rest)); k in r && r[k] != v
    decreases |rest|
  {
    TrimPlain(k);
    if rest != "" {
      StaysLost(st, k, v, rest[0], |rest| == 1);
      hide Lost, Step, Finish, Trim;
      LostForGood(Step(st, rest[0], |rest| == 1), k, v, rest[1..]);
    }
  }

  lemma StaysLost(st: St, k: string, v: string, c: char, last: bool)
    requires GoodKey(k) && Lost(st, k, v)
    ensures Lost(Step(st, c, last), k, v)
  {
    TrimPlain(k);
    Longer(st.str, c, v);
  }

  lemma Longer(a: string, c: char, v: string)
    ensures a + [c] <= v ==> a <= v
  {
    if a + [c] <= v {
      assert v[..|a|] == (a + [c])[..|a|] == a;
    }
  }

  /** Of the first `i` characters of `v` printed for member `k`, fewer have been kept, but at least `a`;
      or the member is lost already. */
  ghost predicate Late(st: St, k: string, v: string, a: nat, i: nat) {
    if k in st.members then st.members[k] != v
    else !st.name && st.key == k && |st.value| < |v| && a <= |st.str| < i <= |v|
  }

  /** A comma, and a further member behind it. */
  predicate More(rest: string) { |rest| > 1 && rest[0] == ',' }

  predicate NoComma(v: string, a: nat, i: nat) { forall j | a <= j < i && j < |v| :: v[j] != ',' }

  lemma LateStep(st: St, k: string, v: string, a: nat, i: nat)
    requires GoodKey(k) && Late(st, k, v, a, i) && i < |v| && v[i] != '"' && v[i] != ','
    ensures Late(Step(st, v[i], false), k, v, a, i + 1)
  {
    TrimPlain(k);
  }

  lemma LateQuote(st: St, k: string, v: string, a: nat, i: nat)
    requires GoodKey(k) && Late(st, k, v, a, i) && i < |v|
    ensures Late(Step(Step(st, '\\', false), '"', false), k, v, a, i + 1)
  {
    TrimPlain(k);
  }

  /** A comma ends the value too early, or is kept where `v` has none. */
  lemma LateComma(st: St, k: string, v: string, a: nat, i: nat)
    requires GoodKey(k) && Late(st, k, v, a, i) && NoComma(v, a, i)
    ensures Lost(Step(st, ',', false), k, v)
  {
    TrimPlain(k);
    assert st.str + [','] <= v ==> v[|st.str|] == ',';
  }

  /** So does the one behind the closing quote. */
  lemma LateEnd(st: St, k: string, v: string, a: nat, rest: string)
    requires GoodKey(k) && Late(st, k, v, a, |v|) && NoComma(v, a, |v|) && (rest == "" || More(rest))
    ensures var r := Finish(Run(st, ['"'] + rest)); k in r && r[k] != v
  {
    var st1 := Step(st, '"', rest == "");
    RunStep(st, '"', rest);
    TrimPlain(k);
    if rest != "" {
      assert st1.str + [','] <= v ==> |st1.str| < |v| && v[|st1.str|] == ',';
      assert rest == [','] + rest[1..];
      RunStep(st1, ',', rest[1..]);
      assert Lost(Step(st1, ',', false), k, v);
      hide Run, Finish, Step, Lost;
      LostForGood(Step(st1, ',', false), k, v, rest[1..]);
    }
  }

  lemma OneMoreNoComma(v: string, a: nat, i: nat)
    requires NoComma(v, a, i) && i < |v|
    ensures v[i] != ',' ==> NoComma(v, a, i + 1)
  {
  }

  lemma EscapedFrom(v: string, i: nat, tail: string)
    requires i <= |v| && tail != ""
    ensures i == |v| ==> Escaped(v[i..]) + tail == tail
    ensures i < |v| ==> var more := Escaped(v[i + 1..]) + tail;
              more != "" && Escaped(v[i..]) + tail == if v[i] == '"' then ['\\'] + (['"'] + more) else [v[i]] + more
  {
    if i < |v| {
      assert v[i..][1..] == v[i + 1..] && v[i..][0] == v[i];
      EscapedFront(v[i..], tail);
    }
  }

  /** What is kept too late is not made up for, up to the next comma. */
  lemma {:induction false} StaysLate(st: St, k: string, v: string, a: nat, i: nat, rest: string)
    requires GoodKey(k) && Late(st, k, v, a, i) && NoComma(v, a, i) && i <= |v| && (rest == "" || More(rest))
    ensures var r := Finish(Run(st, Escaped(v[i..]) + (['"'] + rest))); k in r && r[k] != v
    decreases |v| - i
  {
    var tail := ['"'] + rest;
    EscapedFrom(v, i, tail);
    if i == |v| {
      hide *;
      LateEnd(st, k, v, a, rest);
    } else {
      var more := Escaped(v[i + 1..]) + tail;
      hide NoComma, More, Run, Finish, Escaped, Step, Late, Lost, GoodKey;
      if v[i] == '"' {
        RunStep(st, '\\', ['"'] + more);
        RunStep(Step(st, '\\', false), '"', more);
        OneMoreNoComma(v, a, i);
        LateQuote(st, k, v, a, i);
        StaysLate(Step(Step(st, '\\', false), '"', false), k, v, a, i + 1, rest);
      } else {
        RunStep(st, v[i], more);
        OneMoreNoComma(v, a, i);
        if v[i] == ',' {
          LateComma(st, k, v, a, i);
          LostForGood(Step(st, ',', false), k, v, more);
        } else {
          LateStep(st, k, v, a, i);
          StaysLate(Step(st, v[i], false), k, v, a, i + 1, rest);
        }
      }
    }
  }

  lemma {:induction false} FirstBackslash(v: string) returns (u: string, w: string)
    requires !NoBackslash(v)
    ensures v == u + "\\" + w && NoBackslash(u)
  {
    if v[0] == '\\' {
      u, w := "", v[1..];
    } else {
      u, w := FirstBackslash(v[1..]);
      u := [v[0]] + u;
    }
  }

  lemma {:induction false} EscapedSum(a: string, b: string)
    ensures Escaped(a + b) == Escaped(a) + Escaped(b)
  {
    if a == "" {
      assert a + b == b;
    } else {
      assert (a + b)[1..] == a[1..] + b;
      EscapedSum(a[1..], b);
    }
  }

  /** A text with a backslash does not come back, whatever follows it. */
  lemma BackslashLoses(m: map<string, string>, k: string, v: string, rest: string)
    requires GoodKey(k) && k !in m && !NoBackslash(v) && (rest == "" || More(rest))
    ensures var r := Finish(Run(AtName(m), k + "=" + (Printed1(Text(v)) + rest))); k in r && r[k] != v
  {
    var u, w := FirstBackslash(v);
    var more := Escaped(w) + (['"'] + rest);
    var tail := ['\\'] + more;
    var st := AtValue(m, k);
    var st1 := st.(quote := true, str := u);
    RunKey(m, k, Printed1(Text(v)) + rest);
    PrintedAt(u, w, rest);
    RunStep(st, '"', Escaped(u) + tail);
    RunQuoted(st.(quote := true), u, tail);
    assert "" + u == u && v[|u| + 1..] == w && v[|u|] == '\\';
    RunStep(st1, '\\', more);
    hide Run, Finish, Escaped, GoodKey, Printed1;
    StaysLate(st1.(trans := true), k, v, |u|, |u| + 1, rest);
  }

  lemma PrintedAt(u: string, w: string, rest: string)
    ensures Printed1(Text(u + "\\" + w)) + rest == ['"'] + (Escaped(u) + (['\\'] + (Escaped(w) + (['"'] + rest))))
  {
    EscapedSum(u + "\\", w);
    EscapedSum(u, "\\");
    EscapedPlain("\\");
    hide Escaped;
    Quoted(Escaped(u), Escaped(w), rest);
  }

  lemma Quoted(a: string, b: string, rest: string)
    ensures "\"" + (a + "\\" + b) + "\"" + rest == ['"'] + (a + (['\\'] + (b + (['"'] + rest))))
  {
  }

  /** The first member whose text holds a backslash is lost. */
  lemma {:induction false} FirstLost(m: map<string, string>, ms: map<string, Value>, ks: seq<string>)
    returns (k: string)
    requires FairMembers(ms) && (forall k | k in ks :: k in ms && k !in m)
    requires forall i, j | 0 <= i < j < |ks| :: ks[i] != ks[j]
    requires exists k | k in ks :: !GoodValue(ms[k])
    ensures k in ks
    ensures var r := Finish(Run(AtName(m), Items(ms, ks))); k in r && r[k] != ms[k].s
    decreases |ks|
  {
    var k0, v, more := ks[0], ms[ks[0]], Items(ms, ks[1..]);
    assert ks == [k0] + ks[1..] && GoodKey(k0) && FairValue(v) && k0 !in ks[1..];
    hide FairValue, GoodKey, Printed1;
    if GoodValue(v) {
      assert ks[1..] != [];
      assert Items(ms, ks) == k0 + "=" + Printed1(v) + "," + more;
      hide Run, Finish, Insert, GoodValue, FairMembers, Items;
      ItemThenMore(m, k0, v, more);
      InsertAdds(m, k0, v.s);
      k := FirstLost(Insert(m, k0, v.s), ms, ks[1..]);
    } else {
      k := k0;
      var rest := LastOrMore(ms, ks);
      hide Run, Finish, FairMembers, Items;
      BackslashLoses(m, k0, v.s, rest);
    }
  }

  /** What follows the first member. */
  lemma LastOrMore(ms: map<string, Value>, ks: seq<string>) returns (rest: string)
    requires ks != [] && forall k | k in ks :: k in ms
    ensures Items(ms, ks) == ks[0] + "=" + (Printed1(ms[ks[0]]) + rest) && (rest == "" || More(rest))
  {
    var more := Items(ms, ks[1..]);
    assert |ks| > 1 ==> more != "";
    rest := if |ks| == 1 then "" else [','] + more;
    hide Printed1;
  }

  lemma InsertAdds(m: map<string, string>, k: string, v: string)
    ensures forall x :: x in Insert(m, k, v) ==> x in m || x == k
  {
  }

  /** A packet printed in any order of its members parses to itself, its values as text, if and only if
      no text holds a backslash. */
  lemma RoundTrip(p: Packet, ks: seq<string>)
    requires Fair(p) && Lists(ks, p.members)
    ensures ParseOf(Printed(p, ks)) == Some(Parsed(p.action, p.obj, Texts(p.members)))
            <==> forall k | k in p.members :: p.members[k].Text? ==> NoBackslash(p.members[k].s)
  {
    PrintedParses(p, ks);
    hide Printed, ParseOf, Run, Finish, NoBackslash, GoodKey, FairValue, Items;
    if forall k | k in p.members :: p.members[k].Text? ==> NoBackslash(p.members[k].s) {
      AllItems(p.members, ks);
    } else {
      var k :| k in p.members && p.members[k].Text? && !NoBackslash(p.members[k].s);
      assert k in ks && !GoodValue(p.members[k]);
      var j := FirstLost(map[], p.members, ks);
    }
  }

  /** The smallest such text: a backslash alone comes back empty. */
  lemma BackslashLost()
    ensures var p := Packet("a", "", map["k" := Text("\\")]);
            ParseOf(Printed(p, ["k"])) != Some(Parsed("a", "", map["k" := "\\"]))
  {
    var p := Packet("a", "", map["k" := Text("\\")]);
    assert Texts(p.members) == map["k" := "\\"] && "k" in p.members && p.members["k"].s[0] == '\\';
    assert FairValue(p.members["k"]);
    hide ParseOf, Printed, Texts;
    RoundTrip(p, ["k"]);
  }

  /** A printed packet, character by character; quotes inside a text are escaped. */
  lemma ExamplePrinted()
    ensures var p := Packet("set", "x", map["k" := Text("a"), "n" := Other("5")]);
            Lists(["k", "n"], p.members) && Printed(p, ["k", "n"]) == "set x k=\"a\",n=5;"
    ensures Escaped("a\"b") == "a\\\"b"
  {
    var m := map["k" := Text("a"), "n" := Other("5")];
    ItemsOf2(m, "k", "n");
    EscapedPlain("a");
    EscapedPlain("5");
    assert Escaped("a\"b") == "a" + ("\\\"" + ("b" + ""));
    hide Escaped;
    assert Printed1(m["k"]) == "\"a\"" && Printed1(m["n"]) == "5";
    hide Items, Printed1;
  }

  lemma ItemsOf2(m: map<string, Value>, j: string, k: string)
    requires j in m && k in m
    ensures Items(m, [j, k]) == j + "=" + Printed1(m[j]) + "," + (k + "=" + Printed1(m[k]) + "" + "")
  {
    assert [j, k][1..] == [k] && [k][1..] == [];
    hide Printed1;
    assert Items(m, []) == "";
  }

  /** An action with a character of another kind is refused. */
  lemma RefusedAction(cmd: string, w: string, c: char, rest: string)
    requires Body(cmd) == w + [c] + rest && NoNul(Body(cmd)) && Word(w) && !IsWordChar(c) && !IsSpace(c)
    ensures ParseOf(cmd) == None
  {
    var s := Body(cmd);
    CStrSame(s);
    WordCharIsNoSpace(s[0]);
    hide Body, CStr, IsSpace, IsWordChar, NoNul;
    assert Skipped(s) == s && s[|w|] == c;
    var n := WordLength(s);
    assert forall i | 0 <= i < |w| :: s[i] == w[i];
    assert n == |w|;
  }

  lemma WordCharIsNoSpace(c: char)
    ensures IsWordChar(c) ==> !IsSpace(c)
  {
  }

  // ---------------------------------------------------------------- the code

  /** Skips space from `p0` on. */
  method SkipSpaces(c: string, p0: nat) returns (p: nat)
    requires p0 <= |c|
    ensures p0 <= p <= |c| && c[p..] == Skipped(c[p0..])
  {
    p := p0;
    while p < |c| && IsSpace(c[p])
      invariant p <= |c| && Skipped(c[p..]) == Skipped(c[p0..])
    {
      assert c[p..][1..] == c[p + 1..];
      p := p + 1;
    }
  }

  /** Reads word characters up to a space or the end; false when another character comes first. */
  method ReadWord(c: string, p0: nat) returns (p: nat, str: string, ok: bool)
    requires p0 <= |c|
    ensures p0 <= p <= |c| && str == c[p0..p] && p - p0 == WordLength(c[p0..]) && ok == EndsWord(c[p0..], p - p0)
  {
    p, str, ok := p0, "", true;
    while p < |c| && !IsSpace(c[p])
      invariant p0 <= p <= |c| && str == c[p0..p] && WordLength(c[p0..]) == p - p0 + WordLength(c[p..])
    {
      if !IsWordChar(c[p]) { return p, str, false; }
      assert c[p..][1..] == c[p + 1..];
      str := str + [c[p]];
      p := p + 1;
    }
    SpaceEnds(c[p..]);
  }

  lemma SpaceEnds(s: string)
    requires s == "" || IsSpace(s[0])
    ensures WordLength(s) == 0
  {
  }

  /** The loop over the members. */
  method ReadMembers(c: string, p0: nat) returns (members: map<string, string>)
    requires p0 <= |c|
    ensures members == Finish(Run(Start(), c[p0..]))
  {
    var isParsingName, isQuoteMode, isTransMode := true, false, false;
    var key, value, str := "", "", "";
    members := map[];
    var p := p0;
    hide Run, Trim, Insert, IsSpace;
    while p < |c|
      invariant p0 <= p <= |c|
      invariant Run(Start(), c[p0..]) == Run(St(isParsingName, isQuoteMode, isTransMode, key, value, str, members),
                c[p..])
    {
      ghost var st := St(isParsingName, isQuoteMode, isTransMode, key, value, str, members);
      assert c[p..] == [c[p]] + c[p + 1..];
      RunStep(st, c[p], c[p + 1..]);
      var ch := c[p];
      p := p + 1;
      if isParsingName {
        if ch == '=' {
          key := str;
          isParsingName := false;
          str := "";
          continue;
        }
        if IsSpace(ch) { continue; }
        str := str + [ch];
        continue;
      }
      if isQuoteMode {
        if isTransMode {
          str := str + [ch];
          isTransMode := false;
          continue;
        }
        if ch == '\\' {
          isTransMode := true;
          continue;
        }
        if ch == '"' || p == |c| {
          value := str;
          isQuoteMode := false;
          continue;
        }
        str := str + [ch];
        continue;
      }
      if IsSpace(ch) { continue; }
      if ch == '"' {
        isQuoteMode := true;
        continue;
      }
      if ch == ',' || p == |c| {
        if ch != ',' { str := str + [ch]; }
        value := str;
        str := "";
        members := Insert(members, Trim(key), value);
        key := "";
        value := "";
        isParsingName := true;
        continue;
      }
      str := str + [ch];
    }
    NothingLeft(St(isParsingName, isQuoteMode, isTransMode, key, value, str, members), c[p..]);
    if key != "" {
      members := Insert(members, Trim(key), value);
    }
  }

  lemma NothingLeft(st: St, s: string)
    requires s == ""
    ensures Run(st, s) == st
  {
  }

  class CliPacket {
    var m_action: string
    var m_obj: string
    var m_members: map<string, Value>

    ghost function Abs(): Packet
      reads this
    {
      Packet(m_action, m_obj, m_members)
    }

    constructor ()
      ensures Abs() == Packet("", "", map[])
    {
      m_action, m_obj, m_members := "", "", map[];
    }

    method Reset()
      modifies this
      ensures Abs() == Packet("", "", map[])
    {
      m_action, m_obj, m_members := "", "", map[];
    }

    /** Without surrounding space and one closing semicolon; empty when nothing is left. */
    static method Strip(cmdLine: string) returns (cmdTmp: string)
      ensures cmdTmp == Body(cmdLine)
    {
      cmdTmp := Trim(cmdLine);
      if cmdTmp == "" { return ""; }
      if cmdTmp[|cmdTmp| - 1] == ';' {
        cmdTmp := cmdTmp[..|cmdTmp| - 1];
      }
    }

    /** Replaces the packet by what the command says; on failure it is left empty. */
    method Parse(cmdLine: string) returns (ok: bool)
      modifies this
      ensures match ParseOf(cmdLine)
              case None => !ok && Abs() == Packet("", "", map[])
              case Some(r) => ok && Abs() == Packet(r.action, r.obj, map k | k in r.members :: Text(r.members[k]))
    {
      hide Body, Trim, Skipped, WordLength, CStr, Run, Finish, ParsedRest, EndsWord, NoNul, IsBlank;
      Reset();
      var cmdTmp := Strip(cmdLine);
      if cmdTmp == "" { return false; }
      var c := CStr(cmdTmp);
      var p := SkipSpaces(c, 0);
      ghost var c1 := c[p..];
      assert c[0..] == c;
      var q, action, isWord := ReadWord(c, p);
      if !isWord { return false; }
      m_action := action;
      assert action == c1[..q - p] && c[q..] == c1[q - p..];
      p := SkipSpaces(c, q);
      ReadRest(c, p);
      return true;
    }

    /** From behind the action on. */
    method ReadRest(c: string, p: nat)
      requires p <= |c|
      modifies `m_obj, `m_members
      ensures var r := ParsedRest(m_action, c[p..]);
              Abs() == Packet(r.action, r.obj, map k | k in r.members :: Text(r.members[k]))
    {
      hide WordLength, Skipped, Run, Finish;
      var q, str, isObj := ReadWord(c, p);
      var from := p;
      m_obj := "";
      if isObj {
        m_obj := str;
        from := SkipSpaces(c, q);
        assert c[q..] == c[p..][q - p..] && str == c[p..][..q - p];
      }
      var members := ReadMembers(c, from);
      m_members := map k | k in members :: Text(members[k]);
    }

    /** Prints the packet, its members in the order of the map. */
    method ToString(order: seq<string>) returns (cmdLine: string)
      requires Lists(order, m_members)
      ensures cmdLine == Printed(Abs(), order)
    {
      if m_action == "" { return ""; }
      cmdLine := m_action;
      if m_obj != "" { cmdLine := cmdLine + " " + m_obj; }
      if m_members != map[] { cmdLine := cmdLine + " "; }
      AnyMember(order);
      FrontIs(Abs(), order, cmdLine);
      hide *;
      cmdLine := AppendItems(cmdLine, order);
      cmdLine := cmdLine + ";";
    }

    /** The loop over the members. */
    method AppendItems(front: string, order: seq<string>) returns (cmdLine: string)
      requires forall k | k in order :: k in m_members
      ensures cmdLine == front + Items(m_members, order)
    {
      hide Escaped, Replaced, Printed1;
      cmdLine := front;
      for i := 0 to |order|
        invariant cmdLine + Items(m_members, order[i..]) == front + Items(m_members, order)
      {
        NextItem(m_members, order, i);
        var item := PrintItem(order[i], m_members[order[i]]);
        if i + 1 < |order| { item := item + ","; }
        cmdLine := cmdLine + item;
      }
      assert order[|order|..] == [] && cmdLine + "" == cmdLine;
    }

    lemma FrontIs(p: Packet, order: seq<string>, front: string)
      requires Lists(order, p.members) && p.action != ""
      requires front == (if p.obj != "" then p.action + " " + p.obj else p.action) + if order != [] then " " else ""
      ensures Printed(p, order) == front + Items(p.members, order) + ";"
    {
      hide Items;
      assert p.action + "" == p.action;
      assert p.obj != "" ==> p.action + (" " + p.obj) == p.action + " " + p.obj;
    }

    lemma AnyMember(order: seq<string>)
      requires Lists(order, m_members)
      ensures m_members == map[] <==> order == []
    {
      if order != [] {
        assert order[0] in order;
      }
    }

    method PrintItem(key: string, value: Value) returns (item: string)
      ensures item == key + "=" + Printed1(value)
    {
      item := key + "=";
      var strType := value.Text?;
      ReplacedIsEscaped(value.s);
      var val := ReplaceAll(value.s, "\"", "\\\"");
      hide Replaced, Escaped;
      assert val == Escaped(value.s);
      if strType { item := item + "\""; }
      item := item + val;
      if strType { item := item + "\""; }
      ItemParts(key + "=", value);
    }
  }

  lemma ItemParts(head: string, v: Value)
    ensures head + Printed1(v) == if v.Text? then head + "\"" + Escaped(v.s) + "\"" else head + Escaped(v.s)
  {
    hide Escaped;
    if v.Other? {
      assert "" + Escaped(v.s) + "" == Escaped(v.s);
    }
  }

  lemma NextItem(m: map<string, Value>, ks: seq<string>, i: nat)
    requires i < |ks| && forall k | k in ks :: k in m
    ensures Items(m, ks[i..]) == ks[i] + "=" + Printed1(m[ks[i]]) + (if i + 1 < |ks| then "," else "") +
            Items(m, ks[i + 1..])
  {
    assert ks[i..][1..] == ks[i + 1..];
    hide Printed1;
  }
}
