/**
 The text of the v1 stable and child logs (src/catalog/stable_catalog.c:150-221, 351-463).
 Unlike the other v1 logs it is not percent-encoded: names, column names and symbol tags are
 written as they are, between tabs.  A record reads back exactly when no text in it looks
 like the syntax around it, and one that does not can keep the catalog from opening.
 */
module RawLines {
  import opened Basics
  import opened Decimals
  import opened NameLog
  import opened Stables

  const TYPE_INT64 := 2
  const TYPE_FLOAT64 := 3
  const TYPE_SYMBOL := 4
  const MAX_FIELDS: nat := 128

  /** Neither a tab nor a line end. */
  predicate Plain(s: string) {
    '\t' !in s && '\n' !in s
  }

  /** A text in a 64-byte buffer. */
  function Cut(s: string): string {
    if |s| > 63 then s[..63] else s
  }

  // ---------------------------------------------------------------------
  // Numbers

  function Digits(n: nat): (s: string)
    ensures |s| == |Decimal(n)|
    ensures forall i :: 0 <= i < |s| ==> s[i] == Decimal(n)[i] as char
  {
    seq(|Decimal(n)|, i requires 0 <= i < |Decimal(n)| => Decimal(n)[i] as char)
  }

  /** `%d` and `%lld`. */
  function Print(v: int): string {
    if v < 0 then "-" + Digits(-v) else Digits(v)
  }

  function Codes(s: string): (c: seq<int>)
    ensures |c| == |s| && forall i :: 0 <= i < |s| ==> c[i] == s[i] as int
  {
    seq(|s|, i requires 0 <= i < |s| => s[i] as int)
  }

  /** `atoi` and `strtoll`, of a number that fits. */
  function Number(s: string): int {
    if s != "" && s[0] == '-' then -(Scan(Codes(s[1..]), 0) as int) else Scan(Codes(s), 0)
  }

  lemma NumberBack(v: int)
    ensures Number(Print(v)) == v && Print(v) != ""
    ensures forall c :: c in Print(v) ==> c == '-' || '0' <= c <= '9'
  {
    var n := if v < 0 then -v else v;
    DecimalReadsBack(n);
    ScanIsValue(Decimal(n));
    assert Codes(Digits(n)) == Decimal(n);
    assert v < 0 ==> Print(v)[1..] == Digits(n);
  }

  // ---------------------------------------------------------------------
  // Lines

  function Join(fs: seq<string>): string {
    if fs == [] then "" else if |fs| == 1 then fs[0] else fs[0] + "\t" + Join(fs[1..])
  }

  /** The first place of a character, or the end. */
  function Find(b: string, c: char): (i: nat)
    ensures i <= |b| && (i < |b| ==> b[i] == c) && c !in b[..i]
  {
    if b == "" || b[0] == c then 0 else
    var i := Find(b[1..], c);
    assert b[..1 + i] == [b[0]] + b[1..][..i];
    1 + i
  }

  /** This file's `split_tab`: it stops where nothing is left, so an empty last field is none. */
  function Split(b: string, cap: nat): seq<string>
    decreases cap
  {
    if cap == 0 || b == "" then []
    else
      var i := Find(b, '\t');
      if i == |b| then [b] else [b[..i]] + Split(b[i + 1..], cap - 1)
  }

  /** Line ends off the end. */
  function Chomp(s: string): (t: string)
    ensures t <= s
  {
    if s != "" && s[|s| - 1] in {'\n', '\r'} then Chomp(s[..|s| - 1]) else s
  }

  /** The fields of the first line of a file. */
  function ReadLine(text: string): seq<string> {
    Split(Chomp(text[..Find(text, '\n')]), MAX_FIELDS)
  }

  lemma {:induction false} FindAfter(f: string, c: char, rest: string)
    requires c !in f && (rest == "" || rest[0] == c)
    ensures Find(f + rest, c) == |f|
  {
    if f == "" {
      assert f + rest == rest;
    } else {
      FindAfter(f[1..], c, rest);
      assert (f + rest)[1..] == f[1..] + rest;
    }
  }

  lemma SplitLast(f: string, cap: nat)
    requires cap > 0 && f != "" && '\t' !in f
    ensures Split(f, cap) == [f]
  {
    FindAfter(f, '\t', "");
    assert f + "" == f;
  }

  lemma SplitStep(f: string, tail: string, cap: nat)
    requires cap > 0 && '\t' !in f
    ensures Split(f + "\t" + tail, cap) == [f] + Split(tail, cap - 1)
  {
    var b := f + "\t" + tail;
    assert b == f + ("\t" + tail);
    FindAfter(f, '\t', "\t" + tail);
    hide Find;
    assert b[..|f|] == f && b[|f| + 1..] == tail;
  }

  lemma {:induction false} SplitJoined(fs: seq<string>, cap: nat)
    requires 0 < |fs| <= cap && fs[|fs| - 1] != "" && forall i :: 0 <= i < |fs| ==> '\t' !in fs[i]
    ensures Split(Join(fs), cap) == fs
    decreases |fs|
  {
    hide Split;
    var f := fs[0];
    if |fs| == 1 {
      SplitLast(f, cap);
      assert fs == [f];
    } else {
      SplitStep(f, Join(fs[1..]), cap);
      SplitJoined(fs[1..], cap - 1);
      assert fs == [f] + fs[1..];
    }
  }

  /** A field of a split line holds no tab, and no character the line did not hold. */
  lemma {:induction false} SplitMeans(b: string, cap: nat, c: char)
    ensures forall f :: f in Split(b, cap) ==> '\t' !in f && (c in f ==> c in b)
    decreases cap
  {
    if cap > 0 && b != "" {
      var i := Find(b, '\t');
      if i < |b| {
        SplitMeans(b[i + 1..], cap - 1, c);
      }
    }
  }

  /** Every field that is read is plain, whatever was written. */
  lemma FieldsArePlain(text: string)
    ensures forall f :: f in ReadLine(text) ==> Plain(f)
  {
    var line := text[..Find(text, '\n')];
    SplitMeans(Chomp(line), MAX_FIELDS, '\n');
  }

  lemma {:induction false} JoinedHas(fs: seq<string>, c: char)
    requires c != '\t' && forall f :: f in fs ==> c !in f
    ensures c !in Join(fs)
  {
    if |fs| > 1 {
      JoinedHas(fs[1..], c);
    }
  }

  lemma {:induction false} JoinedSnoc(fs: seq<string>, f: string)
    requires fs != []
    ensures Join(fs + [f]) == Join(fs) + "\t" + f
  {
    if |fs| == 1 {
      assert (fs + [f])[1..] == [f];
    } else {
      JoinedSnoc(fs[1..], f);
      assert (fs + [f])[1..] == fs[1..] + [f];
    }
  }

  /** Line ends come off the last text of a line and no further. */
  lemma {:induction false} ChompLast(a: string, f: string)
    requires a != "" && a[|a| - 1] !in {'\n', '\r'}
    ensures Chomp(a + f) == a + Chomp(f)
    decreases |f|
  {
    if f == "" {
      assert a + f == a;
    } else if f[|f| - 1] in {'\n', '\r'} {
      assert (a + f)[..|a + f| - 1] == a + f[..|f| - 1];
      ChompLast(a, f[..|f| - 1]);
    }
  }

  /** Plain fields written as a line come back, the last one without its line ends. */
  lemma LineBack(fs: seq<string>, f: string, more: string)
    requires 0 < |fs| < MAX_FIELDS && Plain(f) && Chomp(f) != "" && forall g :: g in fs ==> Plain(g)
    ensures ReadLine(Join(fs + [f]) + "\n" + more) == fs + [Chomp(f)]
    ensures Find(Join(fs + [f]) + "\n" + more, '\n') == |Join(fs + [f])|
  {
    var all, last := fs + [f], fs + [Chomp(f)];
    var line := Join(all);
    JoinedHas(all, '\n');
    FindAfter(line, '\n', "\n" + more);
    assert line + "\n" + more == line + ("\n" + more);
    assert (line + ("\n" + more))[..|line|] == line;
    JoinedSnoc(fs, f);
    JoinedSnoc(fs, Chomp(f));
    ChompLast(Join(fs) + "\t", f);
    assert forall i :: 0 <= i < |last| ==> '\t' !in last[i] by {
      assert forall i :: 0 <= i < |fs| ==> fs[i] in fs;
      assert Chomp(f) == f[..|Chomp(f)|];
    }
    SplitJoined(last, MAX_FIELDS);
  }

  // ---------------------------------------------------------------------
  // Lists of fields

  datatype Listed<T> = Listed(items: seq<T>, rest: seq<string>)

  /** Read up to `n` fields; fields that are missing leave zeroed items. */
  function ReadList<T>(fs: seq<string>, n: int, read: string -> Option<T>, zero: T): Option<Listed<T>>
    decreases |fs|
  {
    if n <= 0 then Some(Listed([], fs))
    else if fs == [] then Some(Listed(seq(n, _ => zero), []))
    else match read(fs[0])
      case None => None
      case Some(x) =>
        match ReadList(fs[1..], n - 1, read, zero)
        case None => None
        case Some(l) => Some(Listed([x] + l.items, l.rest))
  }

  function Texts<T>(xs: seq<T>, write: T -> string): (fs: seq<string>)
    ensures |fs| == |xs| && forall i :: 0 <= i < |xs| ==> fs[i] == write(xs[i])
  {
    seq(|xs|, i requires 0 <= i < |xs| => write(xs[i]))
  }

  /** Enough fields that each read as something: they are read one by one. */
  lemma {:induction false} ListBack<T>(fs: seq<string>, rest: seq<string>, read: string -> Option<T>, zero: T,
                                       xs: seq<T>)
    requires |xs| == |fs| && forall i :: 0 <= i < |fs| ==> read(fs[i]) == Some(xs[i])
    ensures ReadList(fs + rest, |fs|, read, zero) == Some(Listed(xs, rest))
    decreases |fs|
  {
    if fs == [] {
      assert fs + rest == rest && xs == [];
    } else {
      assert (fs + rest)[1..] == fs[1..] + rest;
      ListBack(fs[1..], rest, read, zero, xs[1..]);
      assert xs == [xs[0]] + xs[1..];
    }
  }

  // ---------------------------------------------------------------------
  // Ancestry

  /** The optional last fields. */
  function Ancestry(db: string, group: string): seq<string> {
    (if db == "" then [] else ["DB=" + db]) + (if group == "" then [] else ["GRP=" + group])
  }

  /** What the tail of a line says: the last word counts. */
  function ReadTail(fs: seq<string>): (string, string) {
    if fs == [] then ("", "")
    else
      var (db, group) := ReadTail(fs[..|fs| - 1]);
      var f := fs[|fs| - 1];
      if "DB=" <= f then (Cut(f[3..]), group)
      else if "GRP=" <= f then (db, Cut(f[4..]))
      else (db, group)
  }

  lemma TailSnoc(fs: seq<string>, f: string)
    ensures ReadTail(fs + [f])
         == if "DB=" <= f then (Cut(f[3..]), ReadTail(fs).1)
            else if "GRP=" <= f then (ReadTail(fs).0, Cut(f[4..]))
            else ReadTail(fs)
  {
    assert (fs + [f])[..|fs|] == fs;
  }

  lemma TailBack(db: string, group: string)
    requires |db| <= 63 && |group| <= 63
    ensures ReadTail(Ancestry(db, group)) == (db, group)
  {
    var a := if db == "" then [] else ["DB=" + db];
    if db != "" {
      TailSnoc([], "DB=" + db);
      assert [] + ["DB=" + db] == a && ("DB=" + db)[3..] == db;
    }
    if group != "" {
      TailSnoc(a, "GRP=" + group);
      assert ("GRP=" + group)[0] == 'G' && ("GRP=" + group)[4..] == group;
    }
  }

  lemma {:induction false} TailIsPlain(fs: seq<string>)
    requires forall f :: f in fs ==> Plain(f)
    ensures Plain(ReadTail(fs).0) && Plain(ReadTail(fs).1)
  {
    if fs != [] {
      TailIsPlain(fs[..|fs| - 1]);
      assert fs[|fs| - 1] in fs;
    }
  }

  /** The last field of an ancestry, and the ancestry, without line ends at the end. */
  lemma TailChomped(db: string, group: string)
    requires |db| <= 63 && |group| <= 63 && (db != "" || group != "")
    ensures var a := Ancestry(db, group);
            && a != [] && var last := a[|a| - 1];
            && Chomp(last) != ""
            && ReadTail(a[..|a| - 1] + [Chomp(last)])
               == (if group == "" then Chomp(db) else db, Chomp(group))
  {
    var a := Ancestry(db, group);
    if group != "" {
      var init := if db == "" then [] else ["DB=" + db];
      assert a == init + ["GRP=" + group] && a[..|a| - 1] == init;
      ChompLast("GRP=", group);
      var f := "GRP=" + Chomp(group);
      TailSnoc(init, f);
      TailBack(db, "");
      assert f[0] == 'G' && f[4..] == Chomp(group) && Ancestry(db, "") == init;
    } else {
      assert a == ["DB=" + db] && a[..0] == [];
      ChompLast("DB=", db);
      var f := "DB=" + Chomp(db);
      TailSnoc([], f);
      assert f[3..] == Chomp(db);
    }
  }

  // ---------------------------------------------------------------------
  // Children

  datatype Outcome<T> = Ignored | Corrupt | Read(rec: T)

  /** `%g` and `strtod` on a 64-bit pattern. */
  datatype Floats = Floats(show: int -> string, read: string -> int)

  ghost predicate FloatsOk(fl: Floats) {
    forall w :: Plain(fl.show(w)) && Chomp(fl.show(w)) == fl.show(w)
  }

  const NO_TAG := Tag(0, 0, Name(""))

  function TagValue(fl: Floats, t: Tag): string {
    if t.typ == TYPE_SYMBOL then t.text.text else if t.typ == TYPE_FLOAT64 then fl.show(t.word) else Print(t.word)
  }

  /** The type and the value; a type outside the writer's switch is written as none. */
  function TagText(fl: Floats, t: Tag): string {
    if 1 <= t.typ <= 4 then Print(t.typ) + ":" + TagValue(fl, t) else "0:"
  }

  function TagOf(fl: Floats, typ: int, v: string): Tag {
    if typ in {TYPE_TIMESTAMP, TYPE_INT64} then Tag(typ, Number(v), Name(""))
    else if typ == TYPE_FLOAT64 then Tag(typ, fl.read(v), Name(""))
    else if typ == TYPE_SYMBOL then Tag(typ, 0, Name(Cut(v)))
    else Tag(typ, 0, Name(""))
  }

  function ReadTag(fl: Floats, f: string): Option<Tag> {
    var i := Find(f, ':');
    if i == |f| then None else Some(TagOf(fl, Number(f[..i]), f[i + 1..]))
  }

  function ChildHead(c: Child): seq<string> {
    ["+child", c.name.text, c.stable.text, Print(|c.tags|), Print(c.createdAt)]
  }

  /** `child_log_write` for a create. */
  function ChildFields(fl: Floats, c: Child): seq<string> {
    ChildHead(c) + Texts(c.tags, t => TagText(fl, t)) + Ancestry(c.database.text, c.group.text)
  }

  /** One line of `tsdb_catalog_replay_children`, before it looks for the stable. */
  function ReadChild(fl: Floats, fs: seq<string>): Outcome<Rec<Child>> {
    if |fs| >= 5 && fs[0] == "+child" then
      match ReadList(fs[5..], Number(fs[3]), f => ReadTag(fl, f), NO_TAG)
      case None => Corrupt
      case Some(l) =>
        var (db, group) := ReadTail(l.rest);
        var name := Name(Cut(fs[1]));
        Read(Put(name, Child(name, Name(Cut(fs[2])), l.items, Number(fs[4]), Name(db), Name(group))))
    else if |fs| >= 2 && fs[0] == "-child" then Read(Drop(Name(fs[1])))
    else Ignored
  }

  /** What the struct can hold: texts of 63 bytes, 16 tags, and in a tag only the member that its
      type names. */
  ghost predicate TagFormed(t: Tag) {
    && |t.text.text| <= 63 && (t.typ in {TYPE_TIMESTAMP, TYPE_INT64, TYPE_FLOAT64} ==> t.text == Name(""))
    && (t.typ == TYPE_SYMBOL ==> t.word == 0)
  }

  ghost predicate ChildFormed(c: Child) {
    && |c.name.text| <= 63 && |c.stable.text| <= 63 && |c.database.text| <= 63 && |c.group.text| <= 63
    && |c.tags| <= MAX_TAG_COLS && forall i :: 0 <= i < |c.tags| ==> TagFormed(c.tags[i])
  }

  /** No text of the record holds a tab or a line end. */
  ghost predicate ChildPlain(c: Child) {
    && Plain(c.name.text) && Plain(c.stable.text) && Plain(c.database.text) && Plain(c.group.text)
    && forall i :: 0 <= i < |c.tags| && c.tags[i].typ == TYPE_SYMBOL ==> Plain(c.tags[i].text.text)
  }

  /** What a tag comes back as: a type the writer does not name is written as none. */
  function TagAgain(fl: Floats, t: Tag): Tag {
    if t.typ in {TYPE_TIMESTAMP, TYPE_INT64} then t
    else if t.typ == TYPE_FLOAT64 then t.(word := fl.read(fl.show(t.word)))
    else if t.typ == TYPE_SYMBOL then t
    else NO_TAG
  }

  lemma ColonAfter(a: string, v: string)
    requires ':' !in a
    ensures Find(a + ":" + v, ':') == |a| && (a + ":" + v)[..|a|] == a && (a + ":" + v)[|a| + 1..] == v
  {
    assert a + ":" + v == a + (":" + v);
    FindAfter(a, ':', ":" + v);
  }

  lemma TypedBack(fl: Floats, typ: int, v: string)
    ensures ReadTag(fl, Print(typ) + ":" + v) == Some(TagOf(fl, typ, v))
  {
    NumberBack(typ);
    hide Print, Number;
    ColonAfter(Print(typ), v);
  }

  lemma ZeroText()
    ensures Print(0) + ":" + "" == "0:"
  {
    assert Decimal(0) == [48];
  }

  lemma TagBack(fl: Floats, t: Tag)
    requires TagFormed(t)
    ensures ReadTag(fl, TagText(fl, t)) == Some(TagAgain(fl, t))
  {
    hide Number, Print, ReadTag;
    NumberBack(t.word);
    TypedBack(fl, t.typ, TagValue(fl, t));
    ZeroText();
    TypedBack(fl, 0, "");
  }

  /** The same for the last field of a line. */
  function LastTagAgain(fl: Floats, t: Tag): Tag {
    if t.typ == TYPE_SYMBOL then t.(text := Name(Chomp(t.text.text))) else TagAgain(fl, t)
  }

  lemma PrintIsPlain(v: int)
    ensures Plain(Print(v)) && Chomp(Print(v)) == Print(v) && ':' !in Print(v) && Print(v) != ""
  {
    NumberBack(v);
    hide Number;
    var p := Print(v);
    assert p[|p| - 1] in p;
  }

  lemma LastTagBack(fl: Floats, t: Tag)
    requires TagFormed(t) && FloatsOk(fl)
    ensures Chomp(TagText(fl, t)) != "" && ReadTag(fl, Chomp(TagText(fl, t))) == Some(LastTagAgain(fl, t))
  {
    hide Number, Print, ReadTag;
    TagBack(fl, t);
    PrintIsPlain(t.word);
    if 1 <= t.typ <= 4 {
      var a := Print(t.typ) + ":";
      ChompLast(a, TagValue(fl, t));
      TypedBack(fl, t.typ, Chomp(TagValue(fl, t)));
    }
  }

  /** What a plain child comes back as. */
  function ChildAgain(fl: Floats, c: Child): Child {
    var bare := c.database.text == "" && c.group.text == "";
    c.(tags := seq(|c.tags|, i requires 0 <= i < |c.tags| =>
                 if bare && i == |c.tags| - 1 then LastTagAgain(fl, c.tags[i]) else TagAgain(fl, c.tags[i])),
       database := if c.group.text == "" then Name(Chomp(c.database.text)) else c.database,
       group := Name(Chomp(c.group.text)))
  }

  lemma ChildFieldsRead(fl: Floats, c: Child, ts: seq<string>, xs: seq<Tag>, anc: seq<string>)
    requires ChildFormed(c) && |ts| == |xs| == |c.tags|
    requires forall i :: 0 <= i < |ts| ==> ReadTag(fl, ts[i]) == Some(xs[i])
    ensures ReadChild(fl, ChildHead(c) + ts + anc)
         == Read(Put(c.name, Child(c.name, c.stable, xs, c.createdAt, Name(ReadTail(anc).0), Name(ReadTail(anc).1))))
  {
    hide ReadTag, Number, Print, ReadTail;
    NumberBack(|c.tags|);
    NumberBack(c.createdAt);
    var fs := ChildHead(c) + ts + anc;
    assert fs[5..] == ts + anc;
    ListBack(ts, anc, f => ReadTag(fl, f), NO_TAG, xs);
  }

  lemma ChildFieldsArePlain(fl: Floats, c: Child)
    requires ChildPlain(c) && FloatsOk(fl)
    ensures forall f :: f in ChildHead(c) ==> Plain(f)
    ensures forall i :: 0 <= i < |c.tags| ==> Plain(TagText(fl, c.tags[i]))
    ensures forall f :: f in Ancestry(c.database.text, c.group.text) ==> Plain(f)
  {
    hide Print;
    PrintIsPlain(|c.tags|);
    PrintIsPlain(c.createdAt);
    forall i | 0 <= i < |c.tags| ensures Plain(TagText(fl, c.tags[i])) {
      PrintIsPlain(c.tags[i].typ);
      PrintIsPlain(c.tags[i].word);
    }
  }

  lemma NoTail()
    ensures Ancestry("", "") == [] && ReadTail([]) == ("", "") && Chomp("") == ""
  {
  }

  lemma TailLength(db: string, group: string)
    ensures |Ancestry(db, group)| <= 2
  {
  }

  lemma ChildWithTail(fl: Floats, c: Child, ts: seq<string>, more: string)
    requires ChildFormed(c) && ts == Texts(c.tags, t => TagText(fl, t))
    requires c.database.text != "" || c.group.text != ""
    requires forall f :: f in ChildHead(c) + ts + Ancestry(c.database.text, c.group.text) ==> Plain(f)
    ensures ReadChild(fl, ReadLine(Join(ChildHead(c) + ts + Ancestry(c.database.text, c.group.text)) + "\n" + more))
         == Read(Put(c.name, ChildAgain(fl, c)))
  {
    hide ReadChild, ReadLine, Join, TagText, Ancestry, Chomp, ReadTag, TagAgain, LastTagAgain, ReadTail, Plain,
         TagFormed;
    var head, anc := ChildHead(c), Ancestry(c.database.text, c.group.text);
    TailChomped(c.database.text, c.group.text);
    TailLength(c.database.text, c.group.text);
    var n := |anc| - 1;
    var init, last := head + ts + anc[..n], anc[n];
    assert head + ts + anc == init + [last];
    LineBack(init, last, more);
    var again := anc[..n] + [Chomp(last)];
    assert init + [Chomp(last)] == head + ts + again;
    var xs := ChildAgain(fl, c).tags;
    forall i | 0 <= i < |ts| ensures ReadTag(fl, ts[i]) == Some(xs[i]) {
      TagBack(fl, c.tags[i]);
    }
    ChildFieldsRead(fl, c, ts, xs, again);
  }

  lemma ChildWithoutTail(fl: Floats, c: Child, ts: seq<string>, more: string)
    requires ChildFormed(c) && FloatsOk(fl) && ts == Texts(c.tags, t => TagText(fl, t))
    requires c.database.text == "" && c.group.text == "" && forall f :: f in ChildHead(c) + ts ==> Plain(f)
    ensures ReadChild(fl, ReadLine(Join(ChildHead(c) + ts + []) + "\n" + more)) == Read(Put(c.name, ChildAgain(fl, c)))
  {
    hide ReadChild, ReadLine, Join, TagText, Chomp, ReadTag, TagAgain, LastTagAgain, ReadTail, Plain, TagFormed,
         FloatsOk, Print;
    NoTail();
    var head, xs := ChildHead(c), ChildAgain(fl, c).tags;
    assert head + ts + [] == head + ts;
    if ts == [] {
      PrintIsPlain(c.createdAt);
      assert head + ts == head[..4] + [head[4]];
      LineBack(head[..4], head[4], more);
      ChildFieldsRead(fl, c, ts, xs, []);
    } else {
      var n := |ts| - 1;
      LastTagBack(fl, c.tags[n]);
      assert head + ts == (head + ts[..n]) + [ts[n]];
      LineBack(head + ts[..n], ts[n], more);
      var again := ts[..n] + [Chomp(ts[n])];
      assert (head + ts[..n]) + [Chomp(ts[n])] == head + again + [];
      forall i | 0 <= i < |ts| ensures ReadTag(fl, again[i]) == Some(xs[i]) {
        TagBack(fl, c.tags[i]);
      }
      ChildFieldsRead(fl, c, again, xs, []);
    }
  }

  /** A child whose texts are plain comes back as this, whatever follows in the file. */
  lemma ChildLineGives(fl: Floats, c: Child, more: string)
    requires ChildFormed(c) && ChildPlain(c) && FloatsOk(fl)
    ensures ReadChild(fl, ReadLine(Join(ChildFields(fl, c)) + "\n" + more)) == Read(Put(c.name, ChildAgain(fl, c)))
  {
    hide ReadChild, ReadLine, Join, TagText, Ancestry, Chomp, ReadTag, TagAgain, LastTagAgain, TagFormed, ReadTail;
    ChildFieldsArePlain(fl, c);
    var head, ts, anc := ChildHead(c), Texts(c.tags, t => TagText(fl, t)), Ancestry(c.database.text, c.group.text);
    if c.database.text != "" || c.group.text != "" {
      ChildWithTail(fl, c, ts, more);
    } else {
      NoTail();
      ChildWithoutTail(fl, c, ts, more);
    }
  }

  // When a child reads back

  /** The tag's value survives: its type is one the writer names, and a float is one that `%g`
      prints exactly. */
  ghost predicate TagKept(fl: Floats, t: Tag) {
    || t.typ in {TYPE_TIMESTAMP, TYPE_INT64, TYPE_SYMBOL} || t == NO_TAG
    || (t.typ == TYPE_FLOAT64 && fl.read(fl.show(t.word)) == t.word)
  }

  /** The text at the end of a line, if there is one. */
  function LastText(c: Child): string {
    if c.group.text != "" then c.group.text
    else if c.database.text != "" then c.database.text
    else if c.tags != [] && c.tags[|c.tags| - 1].typ == TYPE_SYMBOL then c.tags[|c.tags| - 1].text.text
    else ""
  }

  predicate NoReturn(s: string) {
    s == "" || s[|s| - 1] != '\r'
  }

  lemma ChompSame(s: string)
    requires Plain(s)
    ensures Chomp(s) == s <==> NoReturn(s)
  {
    if s != "" {
      assert s[|s| - 1] in s;
    }
  }

  /** No tab or line end in any text, no carriage return at the end of the line, and tags whose
      values survive. */
  ghost predicate ChildKept(fl: Floats, c: Child) {
    ChildPlain(c) && NoReturn(LastText(c)) && forall i :: 0 <= i < |c.tags| ==> TagKept(fl, c.tags[i])
  }

  lemma ChildAgainSame(fl: Floats, c: Child)
    requires ChildFormed(c) && ChildPlain(c)
    ensures ChildAgain(fl, c) == c <==> ChildKept(fl, c)
  {
    ChompSame(c.database.text);
    ChompSame(c.group.text);
    ChompSame(LastText(c));
    NoTail();
    hide Chomp, Plain;
    var d := ChildAgain(fl, c);
    if d.tags == c.tags {
      forall i | 0 <= i < |c.tags| ensures TagKept(fl, c.tags[i]) {
        assert d.tags[i] == c.tags[i];
      }
    }
    if d == c && c.tags != [] {
      assert d.tags[|c.tags| - 1] == c.tags[|c.tags| - 1];
    }
  }

  /** Items come from the fields, and what is left over are fields. */
  lemma {:induction false} ListFrom<T>(fs: seq<string>, n: int, read: string -> Option<T>, zero: T)
    ensures var o := ReadList(fs, n, read, zero);
            o.Some? ==> && (forall x :: x in o.value.items ==> x == zero || exists f :: f in fs && read(f) == Some(x))
                        && (forall f :: f in o.value.rest ==> f in fs)
    decreases |fs|
  {
    if n > 0 && fs != [] {
      assert fs[0] in fs;
      assert forall f :: f in fs[1..] ==> f in fs;
      ListFrom(fs[1..], n - 1, read, zero);
    }
  }

  lemma ReadTagIsPlain(fl: Floats, f: string)
    requires Plain(f)
    ensures ReadTag(fl, f).Some? ==> Plain(ReadTag(fl, f).value.text.text)
  {
  }

  lemma EmptyIsPlain()
    ensures Plain("")
  {
  }

  lemma CutIsPlain(s: string)
    ensures Plain(s) ==> Plain(Cut(s))
  {
  }

  /** Whatever a file holds, the texts of a child read from it are plain. */
  lemma ReadChildIsPlain(fl: Floats, fs: seq<string>)
    requires forall f :: f in fs ==> Plain(f)
    ensures var o := ReadChild(fl, fs); o.Read? && o.rec.Put? ==> ChildPlain(o.rec.val)
  {
    hide Plain, ReadTag, Number, ReadTail;
    var o := ReadChild(fl, fs);
    if o.Read? && o.rec.Put? {
      assert forall f :: f in fs[5..] ==> f in fs;
      ListFrom(fs[5..], Number(fs[3]), f => ReadTag(fl, f), NO_TAG);
      var l := ReadList(fs[5..], Number(fs[3]), f => ReadTag(fl, f), NO_TAG).value;
      TailIsPlain(l.rest);
      assert fs[1] in fs && fs[2] in fs;
      CutIsPlain(fs[1]);
      CutIsPlain(fs[2]);
      CutIsPlain("");
      forall t | t in l.items ensures Plain(t.text.text) {
        if t == NO_TAG {
          EmptyIsPlain();
        } else {
          var f :| f in fs[5..] && ReadTag(fl, f) == Some(t);
          ReadTagIsPlain(fl, f);
        }
      }
      assert forall i :: 0 <= i < |l.items| ==> l.items[i] in l.items;
    }
  }

  lemma KeptIsPlain(fl: Floats, c: Child)
    ensures ChildKept(fl, c) ==> ChildPlain(c)
  {
  }

  /** A child's line reads back as the child if and only if no text in it holds a tab or a line
      end, the line does not end in a carriage return, and every tag value survives. */
  lemma ChildReadsBack(fl: Floats, c: Child, more: string)
    requires ChildFormed(c) && FloatsOk(fl)
    ensures ReadChild(fl, ReadLine(Join(ChildFields(fl, c)) + "\n" + more)) == Read(Put(c.name, c))
       <==> ChildKept(fl, c)
  {
    hide ReadChild, ReadLine, Join, ChildFields, ChildAgain, ChildPlain, FloatsOk, ChildFormed, ChildKept;
    if ChildPlain(c) {
      ChildLineGives(fl, c, more);
      ChildAgainSame(fl, c);
    } else {
      var text := Join(ChildFields(fl, c)) + "\n" + more;
      FieldsArePlain(text);
      ReadChildIsPlain(fl, ReadLine(text));
      KeptIsPlain(fl, c);
    }
  }

  // ---------------------------------------------------------------------
  // Files

  /** A whole file, line by line; nothing when a line is corrupt. */
  function ReadFile<T>(text: string, read: seq<string> -> Outcome<T>): Option<seq<T>>
    decreases |text|
  {
    if text == "" then Some([])
    else
      var i := Find(text, '\n');
      match read(ReadLine(text))
      case Corrupt => None
      case Ignored => ReadFile(text[if i < |text| then i + 1 else i..], read)
      case Read(x) =>
        match ReadFile(text[if i < |text| then i + 1 else i..], read)
        case None => None
        case Some(xs) => Some([x] + xs)
  }

  function FileText<T>(recs: seq<T>, write: T -> seq<string>): string {
    if recs == [] then "" else Join(write(recs[0])) + "\n" + FileText(recs[1..], write)
  }

  /** The record is written as one line, and comes back whatever follows. */
  ghost predicate LineKept<T(!new)>(x: T, write: T -> seq<string>, read: seq<string> -> Outcome<T>) {
    && '\n' !in Join(write(x))
    && forall more :: read(ReadLine(Join(write(x)) + "\n" + more)) == Read(x)
  }

  lemma FileStep<T>(line: string, more: string, read: seq<string> -> Outcome<T>, x: T)
    requires '\n' !in line && read(ReadLine(line + "\n" + more)) == Read(x)
    ensures ReadFile(line + "\n" + more, read)
         == match ReadFile(more, read) case None => None case Some(xs) => Some([x] + xs)
  {
    hide ReadLine;
    var text := line + "\n" + more;
    assert text == line + ("\n" + more);
    FindAfter(line, '\n', "\n" + more);
    hide Find;
    assert text[|line| + 1..] == more;
  }

  lemma NoFile<T>(read: seq<string> -> Outcome<T>)
    ensures ReadFile("", read) == Some([])
  {
  }

  lemma {:induction false} FileBack<T(!new)>(recs: seq<T>, write: T -> seq<string>, read: seq<string> -> Outcome<T>)
    requires forall i :: 0 <= i < |recs| ==> LineKept(recs[i], write, read)
    ensures ReadFile(FileText(recs, write), read) == Some(recs)
    decreases |recs|
  {
    hide ReadLine, Join, ReadFile;
    if recs == [] {
      NoFile(read);
    } else {
      assert LineKept(recs[0], write, read);
      FileStep(Join(write(recs[0])), FileText(recs[1..], write), read, recs[0]);
      FileBack(recs[1..], write, read);
      assert recs == [recs[0]] + recs[1..];
    }
  }

  function ChildRecFields(fl: Floats, x: Rec<Child>): seq<string> {
    match x case Put(_, c) => ChildFields(fl, c) case Drop(n) => ["-child", n.text]
  }

  /** A create of a child that reads back, or a drop of a plain name. */
  ghost predicate ChildRecKept(fl: Floats, x: Rec<Child>) {
    match x
    case Put(n, c) => n == c.name && ChildFormed(c) && ChildKept(fl, c)
    case Drop(n) => n.text != "" && Plain(n.text) && NoReturn(n.text)
  }

  lemma ChildLineHasNoEnd(fl: Floats, c: Child)
    requires FloatsOk(fl) && ChildPlain(c)
    ensures '\n' !in Join(ChildFields(fl, c))
  {
    ChildFieldsArePlain(fl, c);
    hide FloatsOk, ChildPlain, TagText, Ancestry, ChildHead;
    JoinedHas(ChildFields(fl, c), '\n');
  }

  lemma PlainHasNoEnd(s: string)
    ensures Plain(s) ==> '\n' !in s
  {
  }

  lemma DropLineBack(op: string, name: string)
    requires Plain(op) && Plain(name) && Chomp(name) == name != ""
    ensures '\n' !in Join([op, name]) && forall more :: ReadLine(Join([op, name]) + "\n" + more) == [op, name]
  {
    hide ReadLine, Join, Chomp, Plain;
    forall more: string ensures ReadLine(Join([op, name]) + "\n" + more) == [op, name] {
      LineBack([op], name, more);
      assert [op] + [name] == [op, name];
    }
    PlainHasNoEnd(op);
    PlainHasNoEnd(name);
    JoinedHas([op, name], '\n');
  }

  lemma ChildLineKept(fl: Floats, x: Rec<Child>)
    requires FloatsOk(fl) && ChildRecKept(fl, x)
    ensures LineKept(x, y => ChildRecFields(fl, y), fs => ReadChild(fl, fs))
  {
    hide ReadLine, Join, ChildFields, FloatsOk, ChildFormed;
    match x
    case Put(n, c) =>
      forall more: string ensures ReadChild(fl, ReadLine(Join(ChildFields(fl, c)) + "\n" + more)) == Read(x) {
        hide ReadChild, ChildKept;
        ChildReadsBack(fl, c, more);
      }
      ChildLineHasNoEnd(fl, c);
    case Drop(n) =>
      ChompSame(n.text);
      DropLineBack("-child", n.text);
  }

  /** A child log of such records reads back whole: the records of `Stables` stand for its text. */
  lemma ChildFileBack(fl: Floats, recs: seq<Rec<Child>>)
    requires FloatsOk(fl) && forall i :: 0 <= i < |recs| ==> ChildRecKept(fl, recs[i])
    ensures ReadFile(FileText(recs, x => ChildRecFields(fl, x)), fs => ReadChild(fl, fs)) == Some(recs)
  {
    hide ChildRecKept, LineKept, FloatsOk, ReadFile, FileText;
    forall i | 0 <= i < |recs| ensures LineKept(recs[i], x => ChildRecFields(fl, x), fs => ReadChild(fl, fs)) {
      ChildLineKept(fl, recs[i]);
    }
    FileBack(recs, x => ChildRecFields(fl, x), fs => ReadChild(fl, fs));
  }

  lemma BareIsNoTag(fl: Floats, b: string)
    requires ':' !in b
    ensures ReadTag(fl, b) == None
  {
    FindAfter(b, ':', "");
    assert b + "" == b;
  }

  lemma TabbedPlain(n: string, st: string, a: string, b: string, s: string, p: string)
    requires Plain(a) && Plain(s) && p == Print(TYPE_SYMBOL) + ":" && Plain(Print(TYPE_SYMBOL))
    ensures Plain("+child") && Plain(p + a) && Plain(p + s)
  {
  }

  /** A tab within a field makes it two. */
  lemma TabbedFields(fl: Floats, c: Child, a: string, b: string, s: string)
    requires c.tags == [Tag(TYPE_SYMBOL, 0, Name(a + "\t" + b)), Tag(TYPE_SYMBOL, 0, Name(s))]
    requires c.database.text == "" && c.group.text == ""
    ensures var p := Print(TYPE_SYMBOL) + ":";
            Join(ChildFields(fl, c)) == Join((ChildHead(c) + [p + a, b]) + [p + s])
  {
    hide Print, Join;
    var head, p := ChildHead(c), Print(TYPE_SYMBOL) + ":";
    var x := head + [p + (a + "\t" + b)];
    assert ChildFields(fl, c) == x + [p + s];
    JoinedSnoc(x, p + s);
    JoinedSnoc(head, p + (a + "\t" + b));
    JoinedSnoc(head + [p + a, b], p + s);
    assert head + [p + a, b] == (head + [p + a]) + [b];
    JoinedSnoc(head + [p + a], b);
    JoinedSnoc(head, p + a);
    assert Join(x) == Join(head) + "\t" + p + a + "\t" + b;
  }

  /** A child with a tab in the first of two symbol tags, which a create accepts: its line is
      corrupt, and with it the file. */
  lemma TabDoesNotOpen(fl: Floats, name: Name, stable: Name, a: string, b: string, s: string, at: int, more: string)
    requires Plain(name.text) && Plain(stable.text) && Plain(a) && Plain(b) && ':' !in b && Plain(s)
    ensures var tags := [Tag(TYPE_SYMBOL, 0, Name(a + "\t" + b)), Tag(TYPE_SYMBOL, 0, Name(s))];
            var c := Child(name, stable, tags, at, Name(""), Name(""));
            var text := Join(ChildFields(fl, c)) + "\n" + more;
            ReadChild(fl, ReadLine(text)) == Corrupt && ReadFile(text, fs => ReadChild(fl, fs)) == None
  {
    hide Print, Plain, Chomp, Find;
    var tags := [Tag(TYPE_SYMBOL, 0, Name(a + "\t" + b)), Tag(TYPE_SYMBOL, 0, Name(s))];
    var c := Child(name, stable, tags, at, Name(""), Name(""));
    var head, p := ChildHead(c), Print(TYPE_SYMBOL) + ":";
    var fs := head + [p + a, b];
    var last := p + s;
    PrintIsPlain(2);
    PrintIsPlain(at);
    PrintIsPlain(TYPE_SYMBOL);
    TabbedPlain(name.text, stable.text, a, b, s, p);
    ChompLast(p, s);
    LineBack(fs, last, more);
    TabbedFields(fl, c, a, b, s);
    var got := fs + [Chomp(last)];
    assert got[5..] == [p + a] + ([b] + [Chomp(last)]);
    TypedBack(fl, TYPE_SYMBOL, a);
    NumberBack(2);
    hide ReadLine, Join, ReadTag, Number;
    BareIsNoTag(fl, b);
    assert ([p + a] + ([b] + [Chomp(last)]))[1..] == [b] + [Chomp(last)];
    assert ReadList([b] + [Chomp(last)], 1, f => ReadTag(fl, f), NO_TAG) == None;
    assert ReadList(got[5..], 2, f => ReadTag(fl, f), NO_TAG) == None;
  }

  // ---------------------------------------------------------------------
  // Stables

  const NO_COLUMN := Column(Name(""), 0)

  function ColText(c: Column): string {
    c.name.text + ":" + Print(c.typ)
  }

  /** The name ends at the first colon. */
  function ReadCol(f: string): Option<Column> {
    var i := Find(f, ':');
    if i == |f| then None else Some(Column(Name(Cut(f[..i])), Number(f[i + 1..])))
  }

  function StableHead(s: Stable): seq<string> {
    ["+stable", s.name.text, Print(|s.cols|), Print(s.tsCol), Print(|s.tagCols|), Print(s.createdAt)]
  }

  /** The column fields of a stable's line. */
  function Columns(s: Stable): (fs: seq<string>)
    ensures |fs| == |s.cols| + |s.tagCols|
  {
    Texts(s.cols, ColText) + Texts(s.tagCols, ColText)
  }

  /** `stable_log_write` for a create. */
  function StableFields(s: Stable): seq<string> {
    StableHead(s) + Columns(s) + Ancestry(s.database.text, s.group.text)
  }

  /** One line of `tsdb_catalog_replay_stables`. */
  function ReadStable(fs: seq<string>): Outcome<Rec<Stable>> {
    if |fs| >= 6 && fs[0] == "+stable" then
      match ReadList(fs[6..], Number(fs[2]), ReadCol, NO_COLUMN)
      case None => Corrupt
      case Some(cols) =>
        match ReadList(cols.rest, Number(fs[4]), ReadCol, NO_COLUMN)
        case None => Corrupt
        case Some(tags) =>
          var (db, group) := ReadTail(tags.rest);
          var name := Name(Cut(fs[1]));
          Read(Put(name, Stable(name, cols.items, Number(fs[3]), tags.items, Number(fs[5]), Name(db), Name(group))))
    else if |fs| >= 2 && fs[0] == "-stable" then Read(Drop(Name(fs[1])))
    else Ignored
  }

  ghost predicate ColsFormed(cs: seq<Column>) {
    forall i :: 0 <= i < |cs| ==> |cs[i].name.text| <= 63
  }

  /** What the struct can hold and a create accepts: texts of 63 bytes, 1 to 64 columns, 16 tags. */
  ghost predicate StableFormed(s: Stable) {
    && |s.name.text| <= 63 && |s.database.text| <= 63 && |s.group.text| <= 63
    && 1 <= |s.cols| <= MAX_COLS && |s.tagCols| <= MAX_TAG_COLS && ColsFormed(s.cols) && ColsFormed(s.tagCols)
  }

  ghost predicate ColsPlain(cs: seq<Column>) {
    forall i :: 0 <= i < |cs| ==> Plain(cs[i].name.text)
  }

  ghost predicate StablePlain(s: Stable) {
    && Plain(s.name.text) && Plain(s.database.text) && Plain(s.group.text) && ColsPlain(s.cols) && ColsPlain(s.tagCols)
  }

  ghost predicate NoColons(cs: seq<Column>) {
    forall i :: 0 <= i < |cs| ==> ':' !in cs[i].name.text
  }

  /** What a column comes back as. */
  function ColAgain(c: Column): Column {
    var i := Find(c.name.text, ':');
    if i == |c.name.text| then c
    else Column(Name(c.name.text[..i]), Number(c.name.text[i + 1..] + ":" + Print(c.typ)))
  }

  lemma PlainColBack(c: Column)
    requires |c.name.text| <= 63 && ':' !in c.name.text
    ensures ReadCol(ColText(c)) == Some(c) && ColAgain(c) == c
  {
    var n, p := c.name.text, Print(c.typ);
    NumberBack(c.typ);
    hide Print, Number;
    ColonAfter(n, p);
    assert n[..|n|] == n;
    FindAfter(n, ':', "");
    assert n + "" == n;
  }

  lemma ColonColBack(c: Column)
    requires |c.name.text| <= 63 && ':' in c.name.text
    ensures ReadCol(ColText(c)) == Some(ColAgain(c)) && ColAgain(c) != c
  {
    hide Print, Number;
    var n, p := c.name.text, Print(c.typ);
    var i := Find(n, ':');
    assert i < |n| by {
      assert n[..|n|] == n;
    }
    var a, v := n[..i], n[i + 1..] + ":" + p;
    assert n == a + ":" + n[i + 1..];
    assert ColText(c) == a + ":" + v;
    ColonAfter(a, v);
  }

  lemma ColBack(c: Column)
    requires |c.name.text| <= 63
    ensures ReadCol(ColText(c)) == Some(ColAgain(c)) && (ColAgain(c) == c <==> ':' !in c.name.text)
    ensures Chomp(ColText(c)) == ColText(c) != ""
  {
    if ':' in c.name.text {
      ColonColBack(c);
    } else {
      PlainColBack(c);
    }
    hide ReadCol, ColAgain, Print, Find;
    PrintIsPlain(c.typ);
    ChompLast(c.name.text + ":", Print(c.typ));
  }

  function ColsAgain(cs: seq<Column>): (ds: seq<Column>)
    ensures |ds| == |cs|
  {
    seq(|cs|, i requires 0 <= i < |cs| => ColAgain(cs[i]))
  }

  lemma ColsBack(cs: seq<Column>, rest: seq<string>)
    requires ColsFormed(cs)
    ensures ReadList(Texts(cs, ColText) + rest, |cs|, ReadCol, NO_COLUMN) == Some(Listed(ColsAgain(cs), rest))
    ensures ColsAgain(cs) == cs <==> NoColons(cs)
  {
    hide ReadCol, ColText, ColAgain;
    forall i | 0 <= i < |cs| ensures ReadCol(ColText(cs[i])) == Some(ColAgain(cs[i]))
                                  && (ColAgain(cs[i]) == cs[i] <==> ':' !in cs[i].name.text) {
      ColBack(cs[i]);
    }
    ListBack(Texts(cs, ColText), rest, ReadCol, NO_COLUMN, ColsAgain(cs));
    if ColsAgain(cs) == cs {
      forall i | 0 <= i < |cs| ensures ':' !in cs[i].name.text {
        assert ColsAgain(cs)[i] == cs[i];
      }
    }
  }

  function StableAgain(s: Stable): Stable {
    s.(cols := ColsAgain(s.cols), tagCols := ColsAgain(s.tagCols),
       database := if s.group.text == "" then Name(Chomp(s.database.text)) else s.database,
       group := Name(Chomp(s.group.text)))
  }

  lemma StableFieldsRead(s: Stable, anc: seq<string>)
    requires StableFormed(s)
    ensures ReadStable(StableHead(s) + Columns(s) + anc)
         == Read(Put(s.name, Stable(s.name, ColsAgain(s.cols), s.tsCol, ColsAgain(s.tagCols), s.createdAt,
                                    Name(ReadTail(anc).0), Name(ReadTail(anc).1))))
  {
    hide ReadCol, Number, Print, ReadTail, ColText, ColsAgain;
    NumberBack(|s.cols|);
    NumberBack(s.tsCol);
    NumberBack(|s.tagCols|);
    NumberBack(s.createdAt);
    var cs, ts := Texts(s.cols, ColText), Texts(s.tagCols, ColText);
    var fs := StableHead(s) + (cs + ts) + anc;
    assert fs[6..] == cs + (ts + anc);
    ColsBack(s.cols, ts + anc);
    ColsBack(s.tagCols, anc);
  }

  lemma ColTextsArePlain(cs: seq<Column>)
    requires ColsPlain(cs)
    ensures forall f :: f in Texts(cs, ColText) ==> Plain(f)
  {
    hide Print;
    forall i | 0 <= i < |cs| ensures Plain(ColText(cs[i])) {
      PrintIsPlain(cs[i].typ);
    }
  }

  lemma StableFieldsArePlain(s: Stable)
    requires StablePlain(s)
    ensures forall f :: f in StableFields(s) ==> Plain(f)
  {
    hide Print;
    PrintIsPlain(|s.cols|);
    PrintIsPlain(s.tsCol);
    PrintIsPlain(|s.tagCols|);
    PrintIsPlain(s.createdAt);
    ColTextsArePlain(s.cols);
    ColTextsArePlain(s.tagCols);
  }

  lemma FieldsAre(s: Stable)
    ensures StableFields(s) == StableHead(s) + Columns(s) + Ancestry(s.database.text, s.group.text)
    ensures |StableHead(s)| == 6
  {
  }

  lemma StableWithTail(s: Stable, more: string)
    requires StableFormed(s) && (s.database.text != "" || s.group.text != "")
    requires forall f :: f in StableFields(s) ==> Plain(f)
    ensures ReadStable(ReadLine(Join(StableFields(s)) + "\n" + more)) == Read(Put(s.name, StableAgain(s)))
  {
    hide ReadStable, ReadLine, Join, ColText, Ancestry, Chomp, ReadTail, Plain, ColsAgain, Columns, StableFields,
         StableHead, ColsFormed;
    FieldsAre(s);
    TailChomped(s.database.text, s.group.text);
    TailLength(s.database.text, s.group.text);
    var head, body, anc := StableHead(s), Columns(s), Ancestry(s.database.text, s.group.text);
    var n := |anc| - 1;
    var init, last := head + body + anc[..n], anc[n];
    assert head + body + anc == init + [last];
    LineBack(init, last, more);
    var again := anc[..n] + [Chomp(last)];
    assert init + [Chomp(last)] == head + body + again;
    StableFieldsRead(s, again);
  }

  lemma LastColumn(s: Stable)
    requires StableFormed(s)
    ensures var fs := Columns(s); fs != [] && Chomp(fs[|fs| - 1]) == fs[|fs| - 1] != ""
  {
    hide ColText, Chomp;
    ColBack(if s.tagCols == [] then s.cols[|s.cols| - 1] else s.tagCols[|s.tagCols| - 1]);
  }

  lemma StableWithoutTail(s: Stable, more: string)
    requires StableFormed(s) && s.database.text == "" && s.group.text == ""
    requires forall f :: f in StableFields(s) ==> Plain(f)
    ensures ReadStable(ReadLine(Join(StableFields(s)) + "\n" + more)) == Read(Put(s.name, StableAgain(s)))
  {
    hide ReadStable, ReadLine, Join, ColText, Ancestry, Chomp, ReadTail, Plain, ColsAgain, Columns, StableFields,
         StableHead, ColsFormed;
    FieldsAre(s);
    NoTail();
    LastColumn(s);
    var head, body := StableHead(s), Columns(s);
    var n := |body| - 1;
    assert head + body + [] == (head + body[..n]) + [body[n]];
    LineBack(head + body[..n], body[n], more);
    StableFieldsRead(s, []);
  }

  lemma StableLineGives(s: Stable, more: string)
    requires StableFormed(s) && StablePlain(s)
    ensures ReadStable(ReadLine(Join(StableFields(s)) + "\n" + more)) == Read(Put(s.name, StableAgain(s)))
  {
    hide ReadStable, ReadLine, Join, StableAgain, StableFields, StableFormed, StablePlain, Plain;
    StableFieldsArePlain(s);
    if s.database.text != "" || s.group.text != "" {
      StableWithTail(s, more);
    } else {
      StableWithoutTail(s, more);
    }
  }

  /** The text at the end of a stable's line, if there is one. */
  function LastStableText(s: Stable): string {
    if s.group.text != "" then s.group.text else s.database.text
  }

  ghost predicate StableKept(s: Stable) {
    StablePlain(s) && NoReturn(LastStableText(s)) && NoColons(s.cols) && NoColons(s.tagCols)
  }

  lemma StableAgainSame(s: Stable)
    requires StableFormed(s) && StablePlain(s)
    ensures StableAgain(s) == s <==> StableKept(s)
  {
    ChompSame(s.database.text);
    ChompSame(s.group.text);
    NoTail();
    ColsBack(s.cols, []);
    ColsBack(s.tagCols, []);
    hide Chomp, Plain, ColsAgain;
  }

  lemma ReadColsArePlain(fs: seq<string>, n: int)
    requires forall f :: f in fs ==> Plain(f)
    ensures var o := ReadList(fs, n, ReadCol, NO_COLUMN);
            o.Some? ==> ColsPlain(o.value.items) && forall f :: f in o.value.rest ==> Plain(f)
  {
    ListFrom(fs, n, ReadCol, NO_COLUMN);
    var o := ReadList(fs, n, ReadCol, NO_COLUMN);
    if o.Some? {
      forall c | c in o.value.items ensures Plain(c.name.text) {
        if c != NO_COLUMN {
          var f :| f in fs && ReadCol(f) == Some(c);
        }
      }
      assert forall i :: 0 <= i < |o.value.items| ==> o.value.items[i] in o.value.items;
    }
  }

  lemma ReadStableIsPlain(fs: seq<string>)
    requires forall f :: f in fs ==> Plain(f)
    ensures var o := ReadStable(fs); o.Read? && o.rec.Put? ==> StablePlain(o.rec.val)
  {
    hide Plain, ReadCol, Number, ReadTail, ColsPlain;
    var o := ReadStable(fs);
    if o.Read? && o.rec.Put? {
      assert forall f :: f in fs[6..] ==> f in fs;
      ReadColsArePlain(fs[6..], Number(fs[2]));
      var cols := ReadList(fs[6..], Number(fs[2]), ReadCol, NO_COLUMN).value;
      ReadColsArePlain(cols.rest, Number(fs[4]));
      TailIsPlain(ReadList(cols.rest, Number(fs[4]), ReadCol, NO_COLUMN).value.rest);
      assert fs[1] in fs;
      CutIsPlain(fs[1]);
    }
  }

  /** A stable's line reads back as the stable if and only if no text in it holds a tab or a line
      end, no column name a colon, and the line does not end in a carriage return. */
  lemma StableReadsBack(s: Stable, more: string)
    requires StableFormed(s)
    ensures ReadStable(ReadLine(Join(StableFields(s)) + "\n" + more)) == Read(Put(s.name, s)) <==> StableKept(s)
  {
    hide ReadStable, ReadLine, Join, StableFields, StableAgain, StablePlain, StableFormed, NoReturn, NoColons;
    if StablePlain(s) {
      StableLineGives(s, more);
      StableAgainSame(s);
    } else {
      var text := Join(StableFields(s)) + "\n" + more;
      FieldsArePlain(text);
      ReadStableIsPlain(ReadLine(text));
    }
  }

  function StableRecFields(x: Rec<Stable>): seq<string> {
    match x case Put(_, s) => StableFields(s) case Drop(n) => ["-stable", n.text]
  }

  ghost predicate StableRecKept(x: Rec<Stable>) {
    match x
    case Put(n, s) => n == s.name && StableFormed(s) && StableKept(s)
    case Drop(n) => n.text != "" && Plain(n.text) && NoReturn(n.text)
  }

  lemma StableLineKept(x: Rec<Stable>)
    requires StableRecKept(x)
    ensures LineKept(x, StableRecFields, ReadStable)
  {
    hide ReadLine, Join, StableFields, StableFormed;
    match x
    case Put(n, s) =>
      forall more: string ensures ReadStable(ReadLine(Join(StableFields(s)) + "\n" + more)) == Read(x) {
        hide ReadStable, StableKept;
        StableReadsBack(s, more);
      }
      StableFieldsArePlain(s);
      JoinedHas(StableFields(s), '\n');
    case Drop(n) =>
      ChompSame(n.text);
      DropLineBack("-stable", n.text);
  }

  lemma StableFileBack(recs: seq<Rec<Stable>>)
    requires forall i :: 0 <= i < |recs| ==> StableRecKept(recs[i])
    ensures ReadFile(FileText(recs, StableRecFields), ReadStable) == Some(recs)
  {
    hide StableRecKept, LineKept, ReadFile, FileText;
    forall i | 0 <= i < |recs| ensures LineKept(recs[i], StableRecFields, ReadStable) {
      StableLineKept(recs[i]);
    }
    FileBack(recs, StableRecFields, ReadStable);
  }

  /** Opening on the two files restores the catalog that wrote them, when every record in them is
      one that reads back. */
  lemma FilesReopen(fl: Floats, sl: seq<Rec<Stable>>, cl: seq<Rec<Child>>, ds: set<Name>, dc: set<Name>)
    requires FloatsOk(fl) && Written(sl, cl, ds, dc)
    requires forall i :: 0 <= i < |sl| ==> StableRecKept(sl[i])
    requires forall i :: 0 <= i < |cl| ==> ChildRecKept(fl, cl[i])
    ensures ReadFile(FileText(sl, StableRecFields), ReadStable) == Some(sl)
    ensures ReadFile(FileText(cl, x => ChildRecFields(fl, x)), fs => ReadChild(fl, fs)) == Some(cl)
    ensures ReplayUnder(Replay(sl), cl) == Replay(cl)
  {
    StableFileBack(sl);
    ChildFileBack(fl, cl);
    ReopenRestores(Replay(sl), Replay(cl), sl, cl);
  }
}
