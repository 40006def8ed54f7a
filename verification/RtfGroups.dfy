/** The RTF group interpreter: flat counters and a stack of uc values, and the nested scoping they
    stand for. */
module RtfGroups {
  /** What the main loop of parse_rtf meets, one character or command at a time. `Dest` is a command
      that opens a skipped destination, `Special` one that prints a fixed character. */
  datatype Tok =
    | Open | Close | Text(c: int) | Hex(code: int) | Unicode(code: int) | Uc(n: int)
    | Dest | Star | Par | LineEnd | Special(c: int) | Ignored

  /** What the loop does: text, the bytes dropped after a unicode character, and fixed output. */
  datatype Event = Plain(c: int) | HexChar(code: int) | Uni(code: int) | Drop(n: nat) | Fixed(c: int) | ParaEnd | Gap

  function DropCount(uc: int): nat { if uc > 1 then uc - 1 else 0 }

  /** The counters and the stack, with the uc of every open group. */
  datatype Flat = Flat(depth: nat, skip: nat, para: nat, ucs: seq<int>, out: seq<Event>)

  predicate WellFormed(f: Flat) { |f.ucs| == f.depth + 1 && f.skip <= f.depth }

  function Emit(f: Flat, e: Event): Flat { f.(out := f.out + [e]) }

  function TextEvents(t: Tok): seq<Event>
    requires t.Text? || t.Hex?
  {
    match t
    case Text(c) => if c == 10 || c == 13 then [] else [Plain(c)]
    case Hex(code) => [HexChar(code)]
  }

  /** One turn of the main loop. */
  function FlatStep(f: Flat, t: Tok): (g: Flat)
    requires WellFormed(f)
    ensures WellFormed(g)
  {
    match t
    case Open =>
      var g := if f.para > 0 then Emit(f, Gap) else f;
      g.(depth := f.depth + 1, ucs := f.ucs + [f.ucs[f.depth]])
    case Close =>
      var d := if f.depth > 0 then f.depth - 1 else 0;
      f.(depth := d, ucs := f.ucs[..d + 1],
         para := if f.para > 0 && f.para > d then 0 else f.para,
         skip := if f.skip > d then 0 else f.skip)
    case Text(_) => if f.skip == 0 then f.(out := f.out + TextEvents(t)) else f
    case Hex(_) => if f.skip == 0 then f.(out := f.out + TextEvents(t)) else f
    case Unicode(code) =>
      if code < 0 then f
      else Emit(if f.skip == 0 then Emit(f, Uni(code)) else f, Drop(DropCount(f.ucs[f.depth])))
    case Uc(n) => f.(ucs := f.ucs[f.depth := n])
    case Dest => if f.skip == 0 then f.(skip := f.depth) else f
    case Star => if f.skip == 0 then f.(skip := f.depth) else f
    case Par => Emit(f, ParaEnd).(para := f.depth)
    case LineEnd => Emit(f, ParaEnd)
    case Special(c) => Emit(f, Fixed(c))
    case Ignored => f
  }

  function FlatRun(f: Flat, toks: seq<Tok>): (g: Flat)
    requires WellFormed(f)
    ensures WellFormed(g)
    decreases |toks|
  {
    if toks == [] then f else FlatRun(FlatStep(f, toks[0]), toks[1..])
  }

  const START: Flat := Flat(0, 0, 0, [2], [])

  /** parse_rtf, with the flat state in fields and the group stack in a growing array. */
  class RtfReader {
    var groupCount: nat
    var dataSkipMode: nat
    var paraMode: nat
    var groups: array<int>
    var output: seq<Event>

    constructor ()
      ensures Valid() && State() == START && fresh(groups)
    {
      groupCount, dataSkipMode, paraMode, output := 0, 0, 0, [];
      groups := new int[20](_ => 2);
    }

    ghost predicate Valid()
      reads this
    {
      groupCount < groups.Length && dataSkipMode <= groupCount
    }

    ghost function State(): (f: Flat)
      requires Valid()
      reads this, groups
      ensures WellFormed(f)
    {
      Flat(groupCount, dataSkipMode, paraMode, groups[..groupCount + 1], output)
    }

    method Parse(toks: seq<Tok>)
      requires Valid()
      modifies this, groups
      ensures Valid() && (groups == old(groups) || fresh(groups))
      ensures State() == FlatRun(old(State()), toks)
    {
      var i := 0;
      while i < |toks|
        invariant 0 <= i <= |toks| && Valid() && (groups == old(groups) || fresh(groups))
        invariant FlatRun(State(), toks[i..]) == FlatRun(old(State()), toks)
      {
        assert toks[i..][1..] == toks[i + 1..];
        Turn(toks[i]);
        i := i + 1;
      }
    }

    method Turn(t: Tok)
      requires Valid()
      modifies this, groups
      ensures Valid() && (groups == old(groups) || fresh(groups))
      ensures State() == FlatStep(old(State()), t)
    {
      match t {
        case Open => OpenGroup();
        case Close => CloseGroup();
        case Text(c) =>
          if dataSkipMode == 0 {
            if c != 10 && c != 13 { output := output + [Plain(c)]; }
          }
        case Hex(code) =>
          if dataSkipMode == 0 { output := output + [HexChar(code)]; }
        case Unicode(code) =>
          if code >= 0 { PrintUnicode(code); }
        case Uc(n) =>
          groups[groupCount] := n;
        case Dest => if dataSkipMode == 0 { dataSkipMode := groupCount; }
        case Star => if dataSkipMode == 0 { dataSkipMode := groupCount; }
        case Par =>
          output := output + [ParaEnd];
          paraMode := groupCount;
        case LineEnd => output := output + [ParaEnd];
        case Special(c) => output := output + [Fixed(c)];
        case Ignored =>
      }
    }

    method OpenGroup()
      requires Valid()
      modifies this, groups
      ensures Valid() && (groups == old(groups) || fresh(groups))
      ensures State() == FlatStep(old(State()), Open)
    {
      ghost var ucs := groups[..groupCount + 1];
      groupCount := groupCount + 1;
      if groupCount >= groups.Length {
        var grown := new int[groups.Length + 10](_ => 0);
        forall k | 0 <= k < groups.Length { grown[k] := groups[k]; }
        groups := grown;
      }
      if paraMode > 0 { output := output + [Gap]; }
      groups[groupCount] := groups[groupCount - 1];
      assert groups[..groupCount + 1] == ucs + [ucs[|ucs| - 1]];
    }

    method CloseGroup()
      requires Valid()
      modifies this
      ensures Valid() && groups == old(groups)
      ensures State() == FlatStep(old(State()), Close)
    {
      var count: int := groupCount - 1;
      if count < 0 { count := 0; }
      groupCount := count;
      if paraMode > 0 && paraMode > groupCount { paraMode := 0; }
      if dataSkipMode > groupCount { dataSkipMode := 0; }
    }

    method PrintUnicode(code: nat)
      requires Valid()
      modifies this`output
      ensures Valid() && State() == FlatStep(old(State()), Unicode(code))
    {
      if dataSkipMode == 0 { output := output + [Uni(code)]; }
      var i, dropped := groups[groupCount] - 1, 0;
      while i > 0
        invariant dropped + (if i > 0 then i else 0) == DropCount(groups[groupCount])
      {
        dropped := dropped + 1;
        i := i - 1;
      }
      output := output + [Drop(dropped)];
    }
  }

  /** A document as nested groups. */
  datatype Doc = End | Leaf(tok: Tok, rest: Doc) | Group(body: Doc, rest: Doc)

  function Flatten(d: Doc): seq<Tok> {
    match d
    case End => []
    case Leaf(t, rest) => [t] + Flatten(rest)
    case Group(body, rest) => [Open] + Flatten(body) + [Close] + Flatten(rest)
  }

  predicate Plainly(d: Doc) {
    match d
    case End => true
    case Leaf(t, rest) => !t.Open? && !t.Close? && Plainly(rest)
    case Group(body, rest) => Plainly(body) && Plainly(rest)
  }

  /** What scoping says: a destination command silences the rest of its group and everything inside
      it, a uc value holds to the end of its group; both start from the surrounding group's. */
  datatype Scope = Scope(inGroup: bool, silent: bool, uc: int)

  datatype Meaning = Meaning(scope: Scope, events: seq<Event>)

  function LeafMeaning(s: Scope, t: Tok): Meaning
    requires !t.Open? && !t.Close?
  {
    match t
    case Text(_) => Meaning(s, if s.silent then [] else TextEvents(t))
    case Hex(_) => Meaning(s, if s.silent then [] else TextEvents(t))
    case Unicode(code) =>
      Meaning(s, if code < 0 then [] else (if s.silent then [] else [Uni(code)]) + [Drop(DropCount(s.uc))])
    case Uc(n) => Meaning(s.(uc := n), [])
    case Dest => Meaning(s.(silent := s.silent || s.inGroup), [])
    case Star => Meaning(s.(silent := s.silent || s.inGroup), [])
    case Par => Meaning(s, [ParaEnd])
    case LineEnd => Meaning(s, [ParaEnd])
    case Special(c) => Meaning(s, [Fixed(c)])
    case Ignored => Meaning(s, [])
  }

  function DocMeaning(s: Scope, d: Doc): Meaning
    requires Plainly(d)
    decreases d
  {
    match d
    case End => Meaning(s, [])
    case Leaf(t, rest) =>
      var m := LeafMeaning(s, t);
      var n := DocMeaning(m.scope, rest);
      Meaning(n.scope, m.events + n.events)
    case Group(body, rest) =>
      var m := DocMeaning(s.(inGroup := true), body);
      var n := DocMeaning(s, rest);
      Meaning(n.scope, m.events + n.events)
  }

  /** The output without the gaps that para_mode puts before groups. */
  function Gapless(out: seq<Event>): seq<Event> {
    if out == [] then [] else Gapless(out[..|out| - 1]) + if out[|out| - 1].Gap? then [] else [out[|out| - 1]]
  }

  lemma {:induction false} GaplessAppend(a: seq<Event>, b: seq<Event>)
    requires forall i :: 0 <= i < |b| ==> !b[i].Gap?
    ensures Gapless(a + b) == Gapless(a) + b
  {
    if b == [] {
      assert a + b == a;
    } else {
      var n := |b| - 1;
      GaplessAppend(a, b[..n]);
      assert (a + b)[..|a + b| - 1] == a + b[..n];
      assert Gapless(a) + b == Gapless(a) + b[..n] + [b[n]];
    }
  }

  /** The flat counters say the same as the scope. */
  predicate Matches(f: Flat, s: Scope) {
    WellFormed(f) && (s.inGroup <==> f.depth > 0) && (s.silent <==> f.skip > 0) && f.ucs[f.depth] == s.uc
  }

  /** What reading one more piece at the same nesting level has done. */
  ghost predicate Read(f: Flat, g: Flat, m: Meaning) {
    && WellFormed(f) && Matches(g, m.scope) && g.depth == f.depth && g.ucs[..g.depth] == f.ucs[..f.depth]
    && (f.skip > 0 ==> g.skip == f.skip) && (f.skip == 0 && g.skip > 0 ==> g.skip == g.depth)
    && Gapless(g.out) == Gapless(f.out) + m.events
  }

  lemma LeafRead(f: Flat, s: Scope, t: Tok)
    requires Matches(f, s) && !t.Open? && !t.Close?
    ensures Read(f, FlatStep(f, t), LeafMeaning(s, t))
  {
    var m := LeafMeaning(s, t);
    var g := FlatStep(f, t);
    assert g.out == f.out + m.events;
    GaplessAppend(f.out, m.events);
  }

  lemma {:induction false} FlatRunAppend(f: Flat, a: seq<Tok>, b: seq<Tok>)
    requires WellFormed(f)
    ensures FlatRun(f, a + b) == FlatRun(FlatRun(f, a), b)
    decreases |a|
  {
    if a == [] {
      assert a + b == b;
    } else {
      assert (a + b)[1..] == a[1..] + b;
      FlatRunAppend(FlatStep(f, a[0]), a[1..], b);
    }
  }

  lemma ReadThen(f: Flat, g: Flat, h: Flat, m: Meaning, n: Meaning)
    requires Read(f, g, m) && Read(g, h, n)
    ensures Read(f, h, Meaning(n.scope, m.events + n.events))
  {
  }

  /** A closed group leaves the counters as they were before it. */
  lemma GroupRead(f: Flat, s: Scope, inner: Flat, m: Meaning)
    requires Matches(f, s) && Read(FlatStep(f, Open), inner, m)
    ensures Read(f, FlatStep(inner, Close), Meaning(s, m.events))
  {
    if f.para > 0 { assert (f.out + [Gap])[..|f.out|] == f.out; }
    var g := FlatStep(inner, Close);
    assert g.ucs == inner.ucs[..inner.depth] == (f.ucs + [f.ucs[f.depth]])[..f.depth + 1] == f.ucs;
  }

  /** The flat interpreter does on every document exactly what nested scoping says. */
  lemma {:induction false} FlatMeansNested(f: Flat, s: Scope, d: Doc)
    requires Matches(f, s) && Plainly(d)
    ensures Read(f, FlatRun(f, Flatten(d)), DocMeaning(s, d))
    decreases d
  {
    match d {
      case End =>
      case Leaf(t, rest) =>
        var g := FlatStep(f, t);
        LeafRead(f, s, t);
        FlatMeansNested(g, LeafMeaning(s, t).scope, rest);
        assert Flatten(d)[1..] == Flatten(rest);
        ReadThen(f, g, FlatRun(g, Flatten(rest)), LeafMeaning(s, t), DocMeaning(LeafMeaning(s, t).scope, rest));
      case Group(body, rest) =>
        var entered := FlatStep(f, Open);
        var inner := s.(inGroup := true);
        FlatMeansNested(entered, inner, body);
        var read := FlatRun(entered, Flatten(body));
        var closed := FlatStep(read, Close);
        GroupRead(f, s, read, DocMeaning(inner, body));
        FlatMeansNested(closed, s, rest);
        GroupRun(f, Flatten(body), Flatten(rest));
        ReadThen(f, closed, FlatRun(closed, Flatten(rest)),
                 Meaning(s, DocMeaning(inner, body).events), DocMeaning(s, rest));
    }
  }

  lemma GroupRun(f: Flat, body: seq<Tok>, rest: seq<Tok>)
    requires WellFormed(f)
    ensures FlatRun(f, [Open] + body + [Close] + rest) ==
            FlatRun(FlatStep(FlatRun(FlatStep(f, Open), body), Close), rest)
  {
    var g := FlatStep(f, Open);
    var all := [Open] + body + [Close] + rest;
    assert all[1..] == body + ([Close] + rest);
    FlatRunAppend(g, body, [Close] + rest);
    assert ([Close] + rest)[1..] == rest;
  }

  /** The whole file: text, drops and fixed output are those of the nested reading. */
  lemma ParseMeansNested(d: Doc)
    requires Plainly(d)
    ensures Gapless(FlatRun(START, Flatten(d)).out) == DocMeaning(Scope(false, false, 2), d).events
  {
    FlatMeansNested(START, Scope(false, false, 2), d);
  }

  lemma RunOne(f: Flat, t: Tok)
    requires WellFormed(f)
    ensures FlatRun(f, [t]) == FlatStep(f, t)
  {
    assert [t][1..] == [];
    assert FlatRun(FlatStep(f, t), []) == FlatStep(f, t);
  }

  /** The places of a row of text that hold neither a line feed nor a carriage return, in order. */
  ghost predicate Places(row: seq<Tok>, kept: seq<nat>) {
    && (forall i :: 0 <= i < |row| ==> row[i].Text?)
    && (forall k :: 0 <= k < |kept| ==> kept[k] < |row| && row[kept[k]].c != 10 && row[kept[k]].c != 13)
    && (forall k, l :: 0 <= k < l < |kept| ==> kept[k] < kept[l])
    && (forall i :: 0 <= i < |row| && row[i].c != 10 && row[i].c != 13 ==> i in kept)
  }

  function CharsAt(row: seq<Tok>, kept: seq<nat>): (r: seq<Event>)
    requires Places(row, kept)
    ensures |r| == |kept| && forall k :: 0 <= k < |kept| ==> r[k] == Plain(row[kept[k]].c)
  {
    seq(|kept|, k requires 0 <= k < |kept| => Plain(row[kept[k]].c))
  }

  /** A row of text prints its characters in order, all but line feeds and carriage returns. Inside
      a skipped destination it prints nothing. */
  lemma {:induction false} TextRow(f: Flat, row: seq<Tok>) returns (kept: seq<nat>)
    requires WellFormed(f) && forall i :: 0 <= i < |row| ==> row[i].Text?
    ensures Places(row, kept)
    ensures FlatRun(f, row) == if f.skip > 0 then f else f.(out := f.out + CharsAt(row, kept))
  {
    if row == [] {
      kept := [];
    } else {
      var n := |row| - 1;
      var first := TextRow(f, row[..n]);
      kept := PlacesMore(row, first);
      LastTextPrints(f, row);
    }
  }

  lemma PlacesSkip(row: seq<Tok>, kept: seq<nat>)
    requires row != [] && row[|row| - 1].Text? && Places(row[..|row| - 1], kept)
    requires row[|row| - 1].c == 10 || row[|row| - 1].c == 13
    ensures Places(row, kept) && CharsAt(row, kept) == CharsAt(row[..|row| - 1], kept)
  {
    var n := |row| - 1;
    forall i | 0 <= i < |row| && row[i].c != 10 && row[i].c != 13 ensures i in kept {
      assert row[..n][i] == row[i];
    }
  }

  lemma PlacesKeep(row: seq<Tok>, kept: seq<nat>, more: seq<nat>)
    requires row != [] && row[|row| - 1].Text? && Places(row[..|row| - 1], kept)
    requires row[|row| - 1].c != 10 && row[|row| - 1].c != 13 && more == kept + [|row| - 1]
    ensures Places(row, more)
  {
    var n := |row| - 1;
    forall i | 0 <= i < |row| && row[i].c != 10 && row[i].c != 13 ensures i in more {
      if i < n {
        assert row[..n][i] == row[i];
        assert i in kept;
      } else {
        assert more[|kept|] == i;
      }
    }
  }

  lemma PlacesMore(row: seq<Tok>, kept: seq<nat>) returns (more: seq<nat>)
    requires row != [] && row[|row| - 1].Text? && Places(row[..|row| - 1], kept)
    ensures Places(row, more)
    ensures var n := |row| - 1;
      CharsAt(row, more) ==
      CharsAt(row[..n], kept) + if row[n].c != 10 && row[n].c != 13 then [Plain(row[n].c)] else []
  {
    var n := |row| - 1;
    if row[n].c != 10 && row[n].c != 13 {
      more := kept + [n];
      PlacesKeep(row, kept, more);
    } else {
      more := kept;
      PlacesSkip(row, kept);
    }
  }

  lemma LastTextPrints(f: Flat, row: seq<Tok>)
    requires WellFormed(f) && row != [] && row[|row| - 1].Text?
    ensures var n := |row| - 1; var g := FlatRun(f, row[..n]);
      FlatRun(f, row) == if g.skip > 0 || row[n].c == 10 || row[n].c == 13 then g
                         else g.(out := g.out + [Plain(row[n].c)])
  {
    var n := |row| - 1;
    assert row == row[..n] + [row[n]];
    FlatRunAppend(f, row[..n], [row[n]]);
    RunOne(FlatRun(f, row[..n]), row[n]);
  }

  /** A hexadecimal character prints its own code, unless skipped. */
  lemma HexPrints(f: Flat, code: int)
    requires WellFormed(f)
    ensures FlatRun(f, [Hex(code)]) == f.(out := if f.skip == 0 then f.out + [HexChar(code)] else f.out)
  {
    RunOne(f, Hex(code));
  }

  /** A unicode character prints its own code unless skipped, and drops the bytes that stand for it
      in either case: one less than the uc value in force, or none. A negative one does nothing. */
  lemma UnicodePrints(f: Flat, code: int, uc: int) returns (n: nat)
    requires WellFormed(f) && uc == f.ucs[|f.ucs| - 1]
    ensures (uc >= 1 ==> n == uc - 1) && (uc <= 0 ==> n == 0)
    ensures code < 0 ==> FlatRun(f, [Unicode(code)]) == f
    ensures code >= 0 && f.skip > 0 ==> FlatRun(f, [Unicode(code)]) == f.(out := f.out + [Drop(n)])
    ensures code >= 0 && f.skip == 0 ==> FlatRun(f, [Unicode(code)]) == f.(out := f.out + [Uni(code)] + [Drop(n)])
  {
    n := DropCount(uc);
    RunOne(f, Unicode(code));
  }

  /** Fixed output ignores skipped destinations. */
  lemma FixedPrints(f: Flat, c: int)
    requires WellFormed(f)
    ensures FlatRun(f, [Special(c)]) == f.(out := f.out + [Fixed(c)])
    ensures FlatRun(f, [LineEnd]) == f.(out := f.out + [ParaEnd])
  {
    RunOne(f, Special(c));
    RunOne(f, LineEnd);
  }

  /** Outside every group a closing brace too many changes no more than the paragraph mode, and a
      destination command skips nothing. */
  lemma OutsideGroups(f: Flat, t: Tok)
    requires WellFormed(f) && f.depth == 0 && (t.Close? || t.Dest? || t.Star?)
    ensures FlatRun(f, [t]) == if t.Close? then f.(para := 0) else f
  {
    assert f.ucs[..1] == f.ucs;
    RunOne(f, t);
  }

  /** Whatever a group holds, its end restores the uc values and the skipping of the text around it;
      nothing already written changes. */
  lemma GroupRestores(f: Flat, d: Doc)
    requires WellFormed(f) && Plainly(d)
    ensures var g := FlatRun(f, [Open] + Flatten(d) + [Close]);
      g.depth == f.depth && g.ucs == f.ucs && g.skip == f.skip
  {
    var g := FlatRun(FlatStep(f, Open), Flatten(d));
    DocKeeps(FlatStep(f, Open), d);
    GroupRun(f, Flatten(d), []);
    assert [Open] + Flatten(d) + [Close] + [] == [Open] + Flatten(d) + [Close];
    assert FlatStep(g, Close).ucs == g.ucs[..f.depth + 1] == (f.ucs + [f.ucs[f.depth]])[..f.depth + 1] == f.ucs;
  }

  lemma DocKeeps(f: Flat, d: Doc)
    requires WellFormed(f) && Plainly(d)
    ensures var g := FlatRun(f, Flatten(d));
      && g.depth == f.depth && g.ucs[..g.depth] == f.ucs[..f.depth]
      && (f.skip > 0 ==> g.skip == f.skip) && (f.skip == 0 && g.skip > 0 ==> g.skip == g.depth)
  {
    FlatMeansNested(f, Scope(f.depth > 0, f.skip > 0, f.ucs[f.depth]), d);
  }

  /** A uc value holds from its command on: in the groups that follow, and after them again, whatever
      they set themselves. Without a command it is 2, which drops one byte. */
  lemma UcInForce(f: Flat, uc: int, d: Doc, code: nat)
    requires WellFormed(f) && Plainly(d)
    ensures var g := FlatRun(f, [Uc(uc)]);
      && g.ucs[g.depth] == uc && FlatRun(g, [Open]).ucs[g.depth + 1] == uc
      && FlatRun(g, [Open] + Flatten(d) + [Close]).ucs == g.ucs
    ensures FlatRun(START, [Unicode(code)]).out == [Uni(code)] + [Drop(1)]
  {
    var g := FlatRun(f, [Uc(uc)]);
    RunOne(f, Uc(uc));
    RunOne(g, Open);
    GroupRestores(g, d);
    var n := UnicodePrints(START, code, 2);
  }

  /** From f to g something was written, but no text. */
  predicate NoText(f: Flat, g: Flat) {
    f.out <= g.out && forall i :: |f.out| <= i < |g.out| ==> !g.out[i].Plain? && !g.out[i].HexChar? && !g.out[i].Uni?
  }

  lemma {:induction false} SkippedDoc(f: Flat, d: Doc)
    requires WellFormed(f) && f.skip > 0 && Plainly(d)
    ensures NoText(f, FlatRun(f, Flatten(d)))
    decreases d
  {
    match d {
      case End =>
      case Leaf(t, rest) =>
        assert Flatten(d)[1..] == Flatten(rest);
        SkippedDoc(FlatStep(f, t), rest);
      case Group(body, rest) =>
        var entered := FlatStep(f, Open);
        SkippedDoc(entered, body);
        DocKeeps(entered, body);
        SkippedDoc(FlatStep(FlatRun(entered, Flatten(body)), Close), rest);
        GroupRun(f, Flatten(body), Flatten(rest));
    }
  }

  /** A destination command silences its whole group, whatever is nested in it, and nothing after it. */
  lemma DestinationIsSilent(f: Flat, t: Tok, d: Doc)
    requires WellFormed(f) && (t.Dest? || t.Star?) && Plainly(d)
    ensures var g := FlatRun(f, [Open, t] + Flatten(d) + [Close]);
      NoText(f, g) && g.depth == f.depth && g.ucs == f.ucs && g.skip == f.skip
  {
    var entered := FlatStep(f, Open);
    var body := Leaf(t, d);
    assert [Open] + Flatten(body) + [Close] == [Open, t] + Flatten(d) + [Close];
    GroupRestores(f, body);
    assert Flatten(body)[1..] == Flatten(d);
    SkippedDoc(FlatStep(entered, t), d);
    GroupRun(f, Flatten(body), []);
    assert [Open] + Flatten(body) + [Close] + [] == [Open] + Flatten(body) + [Close];
  }

  predicate NoPar(d: Doc) {
    match d
    case End => true
    case Leaf(t, rest) => !t.Par? && NoPar(rest)
    case Group(body, rest) => NoPar(body) && NoPar(rest)
  }

  lemma {:induction false} ParaKept(f: Flat, d: Doc)
    requires WellFormed(f) && f.para <= f.depth && Plainly(d) && NoPar(d)
    ensures FlatRun(f, Flatten(d)).para == f.para
    decreases d
  {
    match d {
      case End =>
      case Leaf(t, rest) =>
        assert Flatten(d)[1..] == Flatten(rest);
        ParaKept(FlatStep(f, t), rest);
      case Group(body, rest) =>
        var entered := FlatStep(f, Open);
        ParaKept(entered, body);
        DocKeeps(entered, body);
        ParaKept(FlatStep(FlatRun(entered, Flatten(body)), Close), rest);
        GroupRun(f, Flatten(body), Flatten(rest));
    }
  }

  lemma OpenGap(f: Flat)
    requires WellFormed(f)
    ensures FlatRun(f, [Open]).out == f.out + (if f.para > 0 then [Gap] else [])
  {
    RunOne(f, Open);
  }

  lemma CloseParagraph(f: Flat)
    requires WellFormed(f) && f.para == f.depth > 0
    ensures FlatRun(FlatRun(f, [Close]), [Open]).out == f.out
  {
    RunOne(f, Close);
    OpenGap(FlatStep(f, Close));
  }

  lemma ParRun(f: Flat, d: Doc) returns (g: Flat)
    requires WellFormed(f) && Plainly(d) && NoPar(d)
    ensures g == FlatRun(f, [Par] + Flatten(d)) && g.depth == g.para == f.depth
  {
    var p := FlatStep(f, Par);
    assert ([Par] + Flatten(d))[1..] == Flatten(d);
    g := FlatRun(p, Flatten(d));
    ParaKept(p, d);
    DocKeeps(p, d);
  }

  /** After a paragraph every group that follows starts with a gap, until the group the paragraph
      ended in is closed; a paragraph outside every group brings no gaps. */
  lemma GapAfterPar(f: Flat, d: Doc)
    requires WellFormed(f) && Plainly(d) && NoPar(d)
    ensures var g := FlatRun(f, [Par] + Flatten(d));
      && FlatRun(g, [Open]).out == g.out + (if f.depth > 0 then [Gap] else [])
      && (f.depth > 0 ==> FlatRun(FlatRun(g, [Close]), [Open]).out == g.out)
  {
    var g := ParRun(f, d);
    OpenGap(g);
    if f.depth > 0 { CloseParagraph(g); }
  }

  /** Net number of groups opened. */
  function Net(toks: seq<Tok>): int {
    if toks == [] then 0
    else
      var last := toks[|toks| - 1];
      Net(toks[..|toks| - 1]) + (if last.Open? then 1 else if last.Close? then -1 else 0)
  }

  predicate Balanced(toks: seq<Tok>) {
    Net(toks) == 0 && forall i :: 0 <= i <= |toks| ==> Net(toks[..i]) >= 0
  }

  lemma {:induction false} NetAppend(a: seq<Tok>, b: seq<Tok>)
    ensures Net(a + b) == Net(a) + Net(b)
    decreases |b|
  {
    if b == [] {
      assert a + b == a;
    } else {
      var n := |b| - 1;
      NetAppend(a, b[..n]);
      assert (a + b)[..|a + b| - 1] == a + b[..n];
    }
  }

  lemma NetFrom(toks: seq<Tok>, a: nat, b: nat)
    requires a <= b <= |toks|
    ensures Net(toks[a..b]) == Net(toks[..b]) - Net(toks[..a])
  {
    NetAppend(toks[..a], toks[a..b]);
    assert toks[..a] + toks[a..b] == toks[..b];
  }

  /** The middle of a balanced stream is balanced if it starts and ends at its lowest level. */
  lemma BalancedSlice(toks: seq<Tok>, a: nat, b: nat)
    requires a <= b <= |toks| && Net(toks[..a]) == Net(toks[..b])
    requires forall i :: a <= i <= b ==> Net(toks[..i]) >= Net(toks[..a])
    ensures Balanced(toks[a..b])
  {
    NetFrom(toks, a, b);
    forall i | 0 <= i <= b - a ensures Net(toks[a..b][..i]) >= 0 {
      assert toks[a..b][..i] == toks[a..a + i];
      NetFrom(toks, a, a + i);
    }
  }

  /** Where the group opened by the first token ends. */
  lemma ClosingOf(toks: seq<Tok>) returns (m: nat)
    requires Balanced(toks) && toks != [] && toks[0].Open?
    ensures 1 <= m < |toks| && toks[m].Close? && Net(toks[..m]) == 1 && Net(toks[..m + 1]) == 0
    ensures forall i :: 1 <= i <= m ==> Net(toks[..i]) >= 1
  {
    assert toks[..1] == [toks[0]] && [toks[0]][..0] == [];
    assert toks[..|toks|] == toks;
    m := 1;
    while Net(toks[..m + 1]) > 0
      invariant 1 <= m < |toks| && forall i :: 1 <= i <= m ==> Net(toks[..i]) >= 1
      decreases |toks| - m
    {
      m := m + 1;
    }
    assert toks[..m + 1][..m] == toks[..m];
  }

  lemma FirstOf(toks: seq<Tok>)
    requires toks != []
    ensures Net(toks[..1]) == (if toks[0].Open? then 1 else if toks[0].Close? then -1 else 0)
    ensures toks[..|toks|] == toks
  {
    assert toks[..1] == [toks[0]] && [toks[0]][..0] == [];
  }

  lemma SplitGroup(toks: seq<Tok>) returns (m: nat)
    requires Balanced(toks) && toks != [] && toks[0].Open?
    ensures 1 <= m < |toks| && Balanced(toks[1..m]) && Balanced(toks[m + 1..|toks|])
    ensures toks == [Open] + toks[1..m] + [Close] + toks[m + 1..|toks|]
  {
    m := ClosingOf(toks);
    FirstOf(toks);
    BalancedSlice(toks, 1, m);
    BalancedSlice(toks, m + 1, |toks|);
  }

  lemma SplitLeaf(toks: seq<Tok>)
    requires Balanced(toks) && toks != [] && !toks[0].Open?
    ensures !toks[0].Close? && Balanced(toks[1..|toks|]) && toks == [toks[0]] + toks[1..|toks|]
  {
    FirstOf(toks);
    assert Net(toks[..1]) >= 0;
    BalancedSlice(toks, 1, |toks|);
  }

  /** Every balanced stream is a document, so nothing is lost by speaking of documents. */
  lemma {:induction false} BalancedIsDoc(toks: seq<Tok>) returns (d: Doc)
    requires Balanced(toks)
    ensures Plainly(d) && Flatten(d) == toks
    decreases |toks|
  {
    if toks == [] {
      d := End;
    } else if toks[0].Open? {
      var m := SplitGroup(toks);
      var body := BalancedIsDoc(toks[1..m]);
      var rest := BalancedIsDoc(toks[m + 1..|toks|]);
      d := Group(body, rest);
    } else {
      SplitLeaf(toks);
      var rest := BalancedIsDoc(toks[1..|toks|]);
      d := Leaf(toks[0], rest);
    }
  }
}
