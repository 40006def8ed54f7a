/** Max-forward segmentation: atomic tokens from a lexer, merged by the longest lexicon match. */
module Segmenters {
  import opened TrieCells
  import opened TrieLookup
  import opened DoubleArrayTries

  datatype Kind = Unknown | Number | Date | Alpha | CWord | Str | Punct | Whitespace | LineBreak

  /** One result of the lexer: its length, its type, and whether it is a separator (no text). */
  datatype Atom = Atom(len: nat, kind: Kind, separator: bool)

  datatype Token = Token(start: nat, end: nat, posInc: nat)

  function Start(atoms: seq<Atom>, k: nat): (r: nat)
    requires k <= |atoms|
  {
    if k == 0 then 0 else Start(atoms, k - 1) + atoms[k - 1].len
  }

  lemma {:induction false} StartMonotone(atoms: seq<Atom>, j: nat, k: nat)
    requires j <= k <= |atoms| && forall i :: 0 <= i < |atoms| ==> atoms[i].len > 0
    ensures Start(atoms, j) + (k - j) <= Start(atoms, k)
  {
    if j < k { StartMonotone(atoms, j, k - 1); }
  }

  /** Separators other than whitespace among the first k atoms. */
  function Breaks(atoms: seq<Atom>, k: nat): nat
    requires k <= |atoms|
  {
    if k == 0 then 0
    else Breaks(atoms, k - 1) + (if atoms[k - 1].separator && atoms[k - 1].kind != Whitespace then 1 else 0)
  }

  /** The places of these separators. */
  ghost function BreakPlaces(atoms: seq<Atom>, k: nat): set<int>
    requires k <= |atoms|
  {
    set m: int | 0 <= m < k && IsBreak(atoms[m])
  }

  predicate IsBreak(a: Atom) { a.separator && a.kind != Whitespace }

  lemma {:induction false} BreaksIsCount(atoms: seq<Atom>, k: nat)
    requires k <= |atoms|
    ensures Breaks(atoms, k) == |BreakPlaces(atoms, k)|
  {
    if k > 0 {
      BreaksIsCount(atoms, k - 1);
      var before := BreakPlaces(atoms, k - 1);
      if IsBreak(atoms[k - 1]) {
        forall m ensures m in BreakPlaces(atoms, k) <==> m in before + {k - 1} {}
        assert BreakPlaces(atoms, k) == before + {k - 1};
      } else {
        forall m ensures m in BreakPlaces(atoms, k) <==> m in before {}
        assert BreakPlaces(atoms, k) == before;
      }
    }
  }

  function PosSum(out: seq<Token>): nat {
    if out == [] then 0 else PosSum(out[..|out| - 1]) + out[|out| - 1].posInc
  }

  predicate Solid(atoms: seq<Atom>, a: nat, b: nat)
    requires a <= b <= |atoms|
  {
    forall m :: a <= m < b ==> !atoms[m].separator
  }

  /** What the lexer promises: non-empty atoms that make up the text. */
  ghost predicate Lexed(atoms: seq<Atom>, text: Key) {
    (forall i :: 0 <= i < |atoms| ==> atoms[i].len > 0) && Start(atoms, |atoms|) == |text|
  }

  /** A lexicon word that matches at atom a ends where some later atom b starts, with no separator
      in between. */
  ghost predicate EndsOnAtom(atoms: seq<Atom>, a: nat, end: nat)
    requires a < |atoms|
  {
    exists b :: a < b <= |atoms| && Start(atoms, b) == end && Solid(atoms, a, b)
  }

  ghost predicate WordsOnAtoms(C: Cells, M: map<Key, int>, atoms: seq<Atom>, text: Key)
    requires Lexed(atoms, text)
  {
    forall a, j {:trigger EndsOnAtom(atoms, a, j)} ::
      0 <= a < |atoms| && Start(atoms, a) < j <= |text| && Sees(C, M, text[Start(atoms, a)..j]) ==>
          EndsOnAtom(atoms, a, j)
  }

  /** Token t spans the atoms a..b, none of them a separator, and is the lexicon's match at its
      start, or the single atom there when the lexicon has none with a non-zero value. */
  ghost predicate TokenAt(C: Cells, M: map<Key, int>, atoms: seq<Atom>, text: Key, t: Token, a: nat, b: nat) {
    && a < b <= |atoms| && Start(atoms, a) == t.start < t.end == Start(atoms, b) <= |text| && Solid(atoms, a, b)
    && exists v, e :: LongestMatch(C, M, text[t.start..], v, e)
         && (if v != 0 then t.end == t.start + e else b == a + 1)
  }

  /** Token j is sound, comes after token j - 1, and its position (the sum of the increments up to
      it) is j plus the number of breaks before it. */
  ghost predicate TokenOk(C: Cells, M: map<Key, int>, atoms: seq<Atom>, text: Key, out: seq<Token>,
                          spans: seq<(nat, nat)>, j: nat)
    requires j < |out| == |spans|
  {
    && TokenAt(C, M, atoms, text, out[j], spans[j].0, spans[j].1)
    && (j > 0 ==> spans[j - 1].1 <= spans[j].0)
    && PosSum(out[..j + 1]) == j + Breaks(atoms, spans[j].0)
  }

  /** The tokens so far, for the atoms before k: each one sound, and no atom left out but the
      separators. */
  ghost predicate Segmented(C: Cells, M: map<Key, int>, atoms: seq<Atom>, text: Key, out: seq<Token>,
                            spans: seq<(nat, nat)>, k: nat) {
    && |spans| == |out| && k <= |atoms|
    && (out != [] ==> spans[|out| - 1].1 <= k)
    && (forall j {:trigger TokenOk(C, M, atoms, text, out, spans, j)} ::
          0 <= j < |out| ==> TokenOk(C, M, atoms, text, out, spans, j))
    && (forall m {:trigger Covered(spans, m)} :: 0 <= m < k && !atoms[m].separator ==> Covered(spans, m))
  }

  ghost predicate Covered(spans: seq<(nat, nat)>, m: nat) {
    exists j :: 0 <= j < |spans| && spans[j].0 <= m < spans[j].1
  }

  const DEFAULT_BUFFER_SIZE: nat := 128

  class TokenBuffer {
    var forwardRef: array<int>
    var types: array<Kind>

    constructor ()
      ensures fresh(forwardRef) && fresh(types)
      ensures forwardRef.Length == types.Length == DEFAULT_BUFFER_SIZE
    {
      forwardRef := new int[DEFAULT_BUFFER_SIZE](_ => 0);
      types := new Kind[DEFAULT_BUFFER_SIZE](_ => Unknown);
    }

    method Resize(n: nat)
      requires forwardRef.Length == types.Length == DEFAULT_BUFFER_SIZE <= n
      modifies this
      ensures fresh(forwardRef) && fresh(types) && forwardRef.Length == types.Length == n
      ensures forwardRef[..DEFAULT_BUFFER_SIZE] == old(forwardRef[..])
      ensures types[..DEFAULT_BUFFER_SIZE] == old(types[..])
    {
      var refs := new int[n](_ => 0);
      var kinds := new Kind[n](_ => Unknown);
      forall i | 0 <= i < DEFAULT_BUFFER_SIZE { refs[i] := forwardRef[i]; }
      forall i | 0 <= i < DEFAULT_BUFFER_SIZE { kinds[i] := types[i]; }
      forwardRef, types := refs, kinds;
    }

    ghost predicate Sized(length: nat)
      reads this
    {
      forwardRef.Length == types.Length && (forwardRef.Length == DEFAULT_BUFFER_SIZE || forwardRef.Length == length + 1)
    }

    /** The buffers describe atom m by its offset from atom k0. */
    ghost predicate Noted(atoms: seq<Atom>, k0: nat, m: nat)
      requires k0 <= m < |atoms|
      reads this, forwardRef, types
    {
      var i, e := Start(atoms, m) - Start(atoms, k0), Start(atoms, m + 1) - Start(atoms, k0);
      && 0 <= i < forwardRef.Length && i < types.Length && types[i] == atoms[m].kind
      && forwardRef[i] == if atoms[m].separator then -e else e
    }

    ghost predicate Describes(atoms: seq<Atom>, k0: nat, k1: nat)
      requires k0 <= k1 <= |atoms|
      reads this, forwardRef, types
    {
      forall m {:trigger Noted(atoms, k0, m)} :: k0 <= m < k1 ==> Noted(atoms, k0, m)
    }

    /** The inner loop of segment: lexes up to and including the next separator. */
    method Fill(atoms: seq<Atom>, length: nat, k0: nat) returns (k: nat, tokenEnd: nat, tokenLen: nat)
      requires k0 <= |atoms| && Start(atoms, |atoms|) == length && Sized(length)
      requires forall i :: 0 <= i < |atoms| ==> atoms[i].len > 0
      modifies this, forwardRef, types
      ensures Sized(length) && (forwardRef == old(forwardRef) || fresh(forwardRef))
              && (types == old(types) || fresh(types))
      ensures k0 <= k <= |atoms| && tokenEnd == Start(atoms, k) - Start(atoms, k0) < types.Length
      ensures Describes(atoms, k0, k)
      ensures k0 < k ==> Solid(atoms, k0, k - 1)
      ensures (k == |atoms| && tokenLen == 0 && Solid(atoms, k0, k)) ||
              (k > k0 && atoms[k - 1].separator && tokenLen == atoms[k - 1].len)
    {
      k, tokenEnd, tokenLen := k0, 0, 0;
      var tokenPos := 0;
      while k < |atoms|
        invariant k0 <= k <= |atoms| && tokenPos == tokenEnd == Start(atoms, k) - Start(atoms, k0) < types.Length
        invariant Sized(length) && (forwardRef == old(forwardRef) || fresh(forwardRef))
                  && (types == old(types) || fresh(types))
        invariant Describes(atoms, k0, k) && Solid(atoms, k0, k)
      {
        StartMonotone(atoms, k + 1, |atoms|);
        tokenLen := atoms[k].len;
        tokenEnd := tokenPos + tokenLen;
        if tokenEnd >= forwardRef.Length {
          Widen(atoms, length, k0, k);
        }
        Note(atoms, k0, k, tokenPos, tokenEnd);
        k := k + 1;
        if atoms[k - 1].separator { return; }
        tokenPos := tokenEnd;
      }
      tokenLen := 0;
    }

    /** Resizing keeps what has been recorded. */
    method Widen(atoms: seq<Atom>, length: nat, k0: nat, k: nat)
      requires k0 <= k <= |atoms| && Describes(atoms, k0, k)
      requires forwardRef.Length == types.Length == DEFAULT_BUFFER_SIZE <= length
      modifies this
      ensures fresh(forwardRef) && fresh(types) && forwardRef.Length == types.Length == length + 1
      ensures Describes(atoms, k0, k)
    {
      ghost var refs, kinds := forwardRef[..], types[..];
      Resize(length + 1);
      forall m | k0 <= m < k ensures Noted(atoms, k0, m) {
        assert old(Noted(atoms, k0, m));
        var i := Start(atoms, m) - Start(atoms, k0);
        assert forwardRef[i] == forwardRef[..DEFAULT_BUFFER_SIZE][i] == refs[i];
        assert types[i] == types[..DEFAULT_BUFFER_SIZE][i] == kinds[i];
      }
    }

    /** Records one atom. */
    method Note(atoms: seq<Atom>, k0: nat, k: nat, tokenPos: nat, tokenEnd: nat)
      requires k0 <= k < |atoms| && Describes(atoms, k0, k) && tokenPos < forwardRef.Length == types.Length
      requires forall i :: 0 <= i < |atoms| ==> atoms[i].len > 0
      requires tokenPos == Start(atoms, k) - Start(atoms, k0) && tokenEnd == tokenPos + atoms[k].len
      modifies forwardRef, types
      ensures Describes(atoms, k0, k + 1)
    {
      ghost var refs, kinds := forwardRef[..], types[..];
      types[tokenPos] := atoms[k].kind;
      forwardRef[tokenPos] := if !atoms[k].separator then tokenEnd else -(tokenEnd as int);
      assert forwardRef[..] == refs[tokenPos := forwardRef[tokenPos]]
        && types[..] == kinds[tokenPos := types[tokenPos]];
      forall m | k0 <= m < k + 1 ensures Noted(atoms, k0, m) {
        if m < k {
          StartMonotone(atoms, m, k);
          assert old(Noted(atoms, k0, m));
          var i := Start(atoms, m) - Start(atoms, k0);
          assert forwardRef[i] == refs[i] && types[i] == kinds[i];
        }
      }
    }
  }

  /** A non-zero answer of the prefix search is a seen word of the stated length. */
  lemma MatchSeen(C: Cells, M: map<Key, int>, text: Key, v: int, e: nat)
    requires LongestMatch(C, M, text, v, e) && v != 0
    ensures e <= |text| && Sees(C, M, text[..e])
  {
    if ForwardWalk(C, text) != 0 { assert text[..|text|] == text; }
  }

  lemma {:induction false} BreaksSolid(atoms: seq<Atom>, a: nat, b: nat)
    requires a <= b <= |atoms| && Solid(atoms, a, b)
    ensures Breaks(atoms, a) == Breaks(atoms, b)
  {
    if a < b { BreaksSolid(atoms, a, b - 1); }
  }

  /** Passing a separator emits nothing. */
  lemma SegmentedSkip(C: Cells, M: map<Key, int>, atoms: seq<Atom>, text: Key, out: seq<Token>,
                      spans: seq<(nat, nat)>, k: nat)
    requires Segmented(C, M, atoms, text, out, spans, k) && k < |atoms| && atoms[k].separator
    ensures Segmented(C, M, atoms, text, out, spans, k + 1)
  {
    forall m | 0 <= m < k + 1 && !atoms[m].separator ensures Covered(spans, m) {}
  }

  /** One more token over the atoms a..b. */
  lemma SegmentedAppend(C: Cells, M: map<Key, int>, atoms: seq<Atom>, text: Key, out: seq<Token>,
                        spans: seq<(nat, nat)>, a: nat, b: nat, t: Token)
    requires Segmented(C, M, atoms, text, out, spans, a) && TokenAt(C, M, atoms, text, t, a, b)
    requires PosSum(out) + t.posInc == |out| + Breaks(atoms, a)
    ensures Segmented(C, M, atoms, text, out + [t], spans + [(a, b)], b)
    ensures PosSum(out + [t]) + 1 == |out + [t]| + Breaks(atoms, a)
  {
    var out', spans' := out + [t], spans + [(a, b)];
    assert out'[..|out|] == out && out'[..|out'|] == out';
    forall m | 0 <= m < b && !atoms[m].separator ensures Covered(spans', m) {
      if m < a { CoveredStill(spans, (a, b), m); } else { assert spans'[|spans|] == (a, b); }
    }
    forall j | 0 <= j < |out'| ensures TokenOk(C, M, atoms, text, out', spans', j) {
      if j < |out| {
        assert TokenOk(C, M, atoms, text, out, spans, j);
        assert out'[..j + 1] == out[..j + 1];
      }
    }
  }

  lemma CoveredStill(spans: seq<(nat, nat)>, more: (nat, nat), m: nat)
    requires Covered(spans, m)
    ensures Covered(spans + [more], m)
  {
    var j :| 0 <= j < |spans| && spans[j].0 <= m < spans[j].1;
    assert (spans + [more])[j] == spans[j];
  }

  /** Where the token at atom m ends: after the lexicon's word, or after the atom. */
  lemma WordStep(C: Cells, M: map<Key, int>, atoms: seq<Atom>, text: Key, k0: nat, m: nat, k1: nat, v: int,
                 e: nat) returns (b: nat)
    requires Lexed(atoms, text) && WordsOnAtoms(C, M, atoms, text) && [] !in M
    requires k0 <= m < k1 <= |atoms| && Solid(atoms, k0, k1 - 1) && !atoms[m].separator
    requires k1 == |atoms| || atoms[k1 - 1].separator
    requires Start(atoms, m) < |text| && LongestMatch(C, M, text[Start(atoms, m)..], v, e)
    ensures m < b <= k1 && Start(atoms, b) == Start(atoms, m) + (if v != 0 then e else atoms[m].len)
    ensures forall p :: TokenAt(C, M, atoms, text, Token(Start(atoms, m), Start(atoms, b), p), m, b)
  {
    var s := Start(atoms, m);
    if v != 0 {
      MatchSeen(C, M, text[s..], v, e);
      assert text[s..][..e] == text[s..s + e];
      assert text[s..s + 0] == [];
      assert EndsOnAtom(atoms, m, s + e);
      b :| m < b <= |atoms| && Start(atoms, b) == s + e && Solid(atoms, m, b);
    } else {
      b := m + 1;
    }
    StartMonotone(atoms, m, b);
    StartMonotone(atoms, b, |atoms|);
  }

  /** The token emitted at atom m extends the segmentation. */
  lemma EmitStep(C: Cells, M: map<Key, int>, atoms: seq<Atom>, text: Key, k0: nat, m: nat, k1: nat, v: int, e: nat,
                 out: seq<Token>, spans: seq<(nat, nat)>, t: Token)
    returns (b: nat, more: seq<(nat, nat)>)
    requires Lexed(atoms, text) && WordsOnAtoms(C, M, atoms, text) && [] !in M
    requires k0 <= m < k1 <= |atoms| && Solid(atoms, k0, k1 - 1) && !atoms[m].separator
    requires k1 == |atoms| || atoms[k1 - 1].separator
    requires Start(atoms, m) < |text| && LongestMatch(C, M, text[Start(atoms, m)..], v, e)
    requires t.start == Start(atoms, m) && t.end == t.start + (if v != 0 then e else atoms[m].len)
    requires Segmented(C, M, atoms, text, out, spans, m) && PosSum(out) + t.posInc == |out| + Breaks(atoms, k0)
    ensures m < b <= k1 && Start(atoms, b) == t.end
    ensures Segmented(C, M, atoms, text, out + [t], more, b)
    ensures PosSum(out + [t]) + 1 == |out + [t]| + Breaks(atoms, k0)
  {
    b := WordStep(C, M, atoms, text, k0, m, k1, v, e);
    BreaksSolid(atoms, k0, m);
    assert t == Token(Start(atoms, m), Start(atoms, b), t.posInc);
    more := spans + [(m, b)];
    SegmentedAppend(C, M, atoms, text, out, spans, m, b, t);
  }

  class MaxForwardSegmenter {
    const lexicon: DoubleArrayTrie

    constructor (trie: DoubleArrayTrie)
      ensures lexicon == trie
    {
      lexicon := trie;
    }

    /** When segment works as meant: the lexicon is a sound trie of bounded depth, without the
        empty word, whose words end on atoms of this text and contain no separator. */
    ghost predicate Ready(atoms: seq<Atom>, text: Key)
      reads lexicon, lexicon.states
    {
      && lexicon.Valid() && (forall s :: s in lexicon.path ==> |lexicon.path[s]| <= STACK_SIZE)
      && [] !in lexicon.dict && Lexed(atoms, text)
      && WordsOnAtoms(lexicon.states[..], lexicon.dict, atoms, text)
    }

    /** segment: the whole text as tokens. */
    method Segment(atoms: seq<Atom>, text: Key) returns (out: seq<Token>)
      requires Ready(atoms, text)
      ensures exists spans :: Segmented(lexicon.states[..], lexicon.dict, atoms, text, out, spans, |atoms|)
    {
      var buffer := new TokenBuffer();
      var posInc, curPos, k := 0, 0, 0;
      out := [];
      ghost var spans: seq<(nat, nat)> := [];
      var first := true;
      while first || curPos < |text|
        invariant fresh(buffer) && fresh(buffer.forwardRef) && fresh(buffer.types) && buffer.Sized(|text|)
        invariant 0 <= k <= |atoms| && curPos == Start(atoms, k) && (first ==> k == 0)
        invariant Segmented(lexicon.states[..], lexicon.dict, atoms, text, out, spans, k)
        invariant k < |atoms| || curPos == |text|
        invariant PosSum(out) + posInc == |out| + Breaks(atoms, k) || k == |atoms|
        decreases if first then 1 else 0, |atoms| - k
      {
        k, curPos, posInc, out, spans := Round(atoms, text, buffer, k, curPos, posInc, out, spans);
        first := false;
        if k < |atoms| { StartMonotone(atoms, k + 1, |atoms|); }
      }
      if k < |atoms| { StartMonotone(atoms, k + 1, |atoms|); }
    }

    /** One round of segment: the atoms up to the next separator. */
    method Round(atoms: seq<Atom>, text: Key, buffer: TokenBuffer, k0: nat, curPos0: nat, posInc0: nat,
                 out0: seq<Token>, ghost spans0: seq<(nat, nat)>)
      returns (k: nat, curPos: nat, posInc: nat, out: seq<Token>, ghost spans: seq<(nat, nat)>)
      requires Ready(atoms, text) && buffer.Sized(|text|) && k0 <= |atoms| && curPos0 == Start(atoms, k0)
      requires Segmented(lexicon.states[..], lexicon.dict, atoms, text, out0, spans0, k0)
      requires PosSum(out0) + posInc0 == |out0| + Breaks(atoms, k0) || k0 == |atoms|
      modifies buffer, buffer.forwardRef, buffer.types
      ensures buffer.Sized(|text|) && (buffer.forwardRef == old(buffer.forwardRef) || fresh(buffer.forwardRef))
      ensures buffer.types == old(buffer.types) || fresh(buffer.types)
      ensures k0 <= k <= |atoms| && curPos == Start(atoms, k) && (k0 < |atoms| ==> k0 < k)
      ensures k < |atoms| || curPos == |text|
      ensures Segmented(lexicon.states[..], lexicon.dict, atoms, text, out, spans, k)
      ensures PosSum(out) + posInc == |out| + Breaks(atoms, k) || k == |atoms|
    {
      var tokenEnd, tokenLen;
      k, tokenEnd, tokenLen := buffer.Fill(atoms, |text|, k0);
      out, posInc, spans := EmitWords(atoms, text, buffer, k0, k, curPos0, tokenEnd, posInc0, out0, spans0);
      if k0 < k { BreaksSolid(atoms, k0, k - 1); }
      curPos := curPos0 + tokenEnd;
      if k > k0 && tokenLen > 0 {
        assert buffer.Noted(atoms, k0, k - 1);
        assert tokenEnd - tokenLen == Start(atoms, k - 1) - Start(atoms, k0);
      }
      if buffer.types[tokenEnd - tokenLen] != Whitespace { posInc := posInc + 1; }
    }

    /** The second inner loop of segment, over the atoms k0..k1 that the buffers describe. */
    method EmitWords(atoms: seq<Atom>, text: Key, buffer: TokenBuffer, ghost k0: nat, ghost k1: nat, curPos: nat,
                     tokenEnd: nat,
                     posInc0: nat, out0: seq<Token>, ghost spans0: seq<(nat, nat)>)
      returns (out: seq<Token>, posInc: nat, ghost spans: seq<(nat, nat)>)
      requires Ready(atoms, text) && k0 <= k1 <= |atoms| && buffer.Describes(atoms, k0, k1)
      requires curPos == Start(atoms, k0) && tokenEnd == Start(atoms, k1) - Start(atoms, k0)
      requires k0 < k1 ==> Solid(atoms, k0, k1 - 1)
      requires k1 == |atoms| || (k0 < k1 && atoms[k1 - 1].separator)
      requires Segmented(lexicon.states[..], lexicon.dict, atoms, text, out0, spans0, k0)
      requires PosSum(out0) + posInc0 == |out0| + Breaks(atoms, k0) || k0 == |atoms|
      ensures Segmented(lexicon.states[..], lexicon.dict, atoms, text, out, spans, k1)
      ensures PosSum(out) + posInc == |out| + Breaks(atoms, k0) || k0 == |atoms|
    {
      ghost var C, M := lexicon.states[..], lexicon.dict;
      out, posInc, spans := out0, posInc0, spans0;
      var i := 0;
      ghost var m := k0;
      while i < tokenEnd
        invariant k0 <= m <= k1 && i == Start(atoms, m) - Start(atoms, k0)
        invariant Segmented(C, M, atoms, text, out, spans, m)
        invariant PosSum(out) + posInc == |out| + Breaks(atoms, k0) || k0 == |atoms|
        decreases tokenEnd - i
      {
        StartMonotone(atoms, m, k1);
        assert m < k1 && buffer.Noted(atoms, k0, m);
        if buffer.forwardRef[i] < 0 {
          SegmentedSkip(C, M, atoms, text, out, spans, m);
          i := -buffer.forwardRef[i];
          m := m + 1;
          continue;
        }
        var matchLen;
        matchLen, out, m, spans := NextWord(atoms, text, buffer, k0, m, k1, curPos, i, posInc, out, spans);
        i := i + matchLen;
        posInc := 1;
      }
      StartMonotone(atoms, m, k1);
    }

    /** One token of that loop, at atom m. */
    method NextWord(atoms: seq<Atom>, text: Key, buffer: TokenBuffer, ghost k0: nat, ghost m: nat, ghost k1: nat,
                    curPos: nat, i: nat, posInc: nat, out0: seq<Token>, ghost spans0: seq<(nat, nat)>)
      returns (matchLen: nat, out: seq<Token>, ghost b: nat, ghost spans: seq<(nat, nat)>)
      requires Ready(atoms, text) && k0 <= m < k1 <= |atoms| && Solid(atoms, k0, k1 - 1)
      requires k1 == |atoms| || atoms[k1 - 1].separator
      requires curPos == Start(atoms, k0) && i == Start(atoms, m) - Start(atoms, k0)
      requires buffer.Noted(atoms, k0, m) && buffer.forwardRef[i] >= 0
      requires Segmented(lexicon.states[..], lexicon.dict, atoms, text, out0, spans0, m)
      requires PosSum(out0) + posInc == |out0| + Breaks(atoms, k0)
      ensures m < b <= k1 && Start(atoms, b) == curPos + i + matchLen && matchLen > 0
      ensures Segmented(lexicon.states[..], lexicon.dict, atoms, text, out, spans, b)
      ensures PosSum(out) + 1 == |out| + Breaks(atoms, k0)
    {
      ghost var C, M := lexicon.states[..], lexicon.dict;
      StartMonotone(atoms, m + 1, |atoms|);
      ShallowFits(C, lexicon.path, lexicon.lastState, text[curPos + i..]);
      var _, hintId, matched := lexicon.SearchPrefix(text[curPos + i..]);
      matchLen := if hintId != 0 then matched else buffer.forwardRef[i] - i;
      var token := Token(curPos + i, curPos + i + matchLen, posInc);
      b, spans := EmitStep(C, M, atoms, text, k0, m, k1, hintId, matched, out0, spans0, token);
      StartMonotone(atoms, m, b);
      out := out0 + [token];
    }
  }

  /** The atom that holds byte x. */
  lemma {:induction false} AtomOf(atoms: seq<Atom>, k: nat, x: nat) returns (m: nat)
    requires k <= |atoms| && x < Start(atoms, k)
    ensures m < k && Start(atoms, m) <= x < Start(atoms, m + 1)
  {
    if x >= Start(atoms, k - 1) { m := k - 1; } else { m := AtomOf(atoms, k - 1, x); }
  }

  /** Tokens follow one another without overlap, at strictly increasing positions. */
  lemma {:induction false} TokensInOrder(C: Cells, M: map<Key, int>, atoms: seq<Atom>, text: Key, out: seq<Token>,
                                        spans: seq<(nat, nat)>, i: nat, j: nat)
    requires Segmented(C, M, atoms, text, out, spans, |atoms|) && Lexed(atoms, text) && i < j < |out|
    ensures out[i].end <= out[j].start && spans[i].1 <= spans[j].0
    ensures PosSum(out[..i + 1]) < PosSum(out[..j + 1])
  {
    assert TokenOk(C, M, atoms, text, out, spans, i) && TokenOk(C, M, atoms, text, out, spans, j);
    if i + 1 < j {
      TokensInOrder(C, M, atoms, text, out, spans, i, j - 1);
      assert TokenOk(C, M, atoms, text, out, spans, j - 1);
    }
    StartMonotone(atoms, spans[i].1, spans[j].0);
    BreaksMonotone(atoms, spans[i].0, spans[j].0);
  }

  lemma {:induction false} BreaksMonotone(atoms: seq<Atom>, a: nat, b: nat)
    requires a <= b <= |atoms|
    ensures Breaks(atoms, a) <= Breaks(atoms, b)
  {
    if a < b { BreaksMonotone(atoms, a, b - 1); }
  }

  /** No word of the lexicon that starts where a token starts is longer than the token, when the walk
      leaves the trie inside the text or the word ends it; the token is then such a word itself. */
  lemma TokenIsLongest(C: Cells, M: map<Key, int>, atoms: seq<Atom>, text: Key, out: seq<Token>,
                       spans: seq<(nat, nat)>, j: nat, e: nat)
    requires Segmented(C, M, atoms, text, out, spans, |atoms|) && j < |out| && forall k :: k in M ==> M[k] != 0
    requires out[j].start + e <= |text| && Sees(C, M, text[out[j].start..out[j].start + e])
    requires ForwardWalk(C, text[out[j].start..]) == 0 || out[j].start + e == |text|
    ensures out[j].start + e <= out[j].end <= |text| && Sees(C, M, text[out[j].start..out[j].end])
  {
    assert TokenOk(C, M, atoms, text, out, spans, j);
    var t := out[j];
    var rest := text[t.start..];
    var v: int, end: nat :| LongestMatch(C, M, rest, v, end)
      && (if v != 0 then t.end == t.start + end else spans[j].1 == spans[j].0 + 1);
    assert rest[..e] == text[t.start..t.start + e];
    LongestMatchMeans(C, M, rest, v, end, e);
    assert rest[..end] == text[t.start..t.start + end];
  }

  /** Where no word of the lexicon starts, the token is one atom. */
  lemma TokenIsAtom(C: Cells, M: map<Key, int>, atoms: seq<Atom>, text: Key, out: seq<Token>,
                    spans: seq<(nat, nat)>, j: nat) returns (m: nat)
    requires Segmented(C, M, atoms, text, out, spans, |atoms|) && j < |out| && out[j].start <= |text|
    requires forall e {:trigger text[out[j].start..][..e]} ::
               0 <= e <= |text[out[j].start..]| ==> !Sees(C, M, text[out[j].start..][..e])
    ensures m < |atoms| && !atoms[m].separator
    ensures out[j].start == Start(atoms, m) && out[j].end == Start(atoms, m) + atoms[m].len
  {
    assert TokenOk(C, M, atoms, text, out, spans, j);
    m := spans[j].0;
    var rest := text[out[j].start..];
    var v: int, end: nat :| LongestMatch(C, M, rest, v, end)
      && (if v != 0 then out[j].end == out[j].start + end else spans[j].1 == spans[j].0 + 1);
    assert rest[..|rest|] == rest;
    if v != 0 { MatchSeen(C, M, rest, v, end); }
  }

  /** Every byte of the text lies in one atom, and in some token exactly when that atom is not a
      separator. */
  lemma TokensCover(C: Cells, M: map<Key, int>, atoms: seq<Atom>, text: Key, out: seq<Token>, spans: seq<(nat, nat)>,
                    x: nat)
    returns (m: nat)
    requires Segmented(C, M, atoms, text, out, spans, |atoms|) && Lexed(atoms, text) && x < |text|
    ensures m < |atoms| && Start(atoms, m) <= x < Start(atoms, m + 1)
    ensures (exists j :: 0 <= j < |out| && out[j].start <= x < out[j].end) <==> !atoms[m].separator
  {
    m := AtomOf(atoms, |atoms|, x);
    if !atoms[m].separator {
      assert Covered(spans, m);
      var j :| 0 <= j < |spans| && spans[j].0 <= m < spans[j].1;
      assert TokenOk(C, M, atoms, text, out, spans, j);
      StartMonotone(atoms, spans[j].0, m);
      StartMonotone(atoms, m + 1, spans[j].1);
      assert out[j].start <= x < out[j].end;
    }
    if j :| 0 <= j < |out| && out[j].start <= x < out[j].end {
      assert TokenOk(C, M, atoms, text, out, spans, j);
      if m < spans[j].0 { StartMonotone(atoms, m + 1, spans[j].0); }
      if spans[j].1 <= m { StartMonotone(atoms, spans[j].1, m); }
    }
  }
}
