/** The segment writer and the segment reader undo each other. */
module Reassembly {
  import opened Bytes
  import opened Wrappers
  import opened Text
  import opened Values
  import opened Segmentation
  import opened Discipline

  /** A reader fed with segments until it stops: its state, the segments it took, and whether it stopped. */
  datatype Assembly = Assembly(st: IndexState, taken: nat, finished: bool)

  function Assemble(st: IndexState, fs: seq<seq<byte>>): Assembly
    requires forall i :: 0 <= i < |fs| ==> |fs[i]| == 8
    decreases |fs|
  {
    if fs == [] then Assembly(st, 0, false)
    else
      match TakeSegment(st, fs[0])
      case Crash => Assembly(st, 0, false)
      case Stop(st') => Assembly(st', 1, true)
      case Send(st', _) =>
        var rest := Assemble(st', fs[1..]);
        rest.(taken := rest.taken + 1)
  }

  /** The reader's step on the first segment of `s`, when it already has `before`. */
  lemma FirstSegment(st: IndexState, toggle: nat, before: seq<byte>, s: seq<byte>)
    requires ToggleByte(toggle) && Ascii(s) && s != []
    requires st.text == Some(before) && st.len >= |before| + |s|
    ensures var k := Chunk(s);
            TakeSegment(st, SegmentOf(toggle, s)) ==
            if k < 7 || (k == |s| && st.len == |before| + |s|) then
              Stop(st.(text := Some(before + s), value := StrV(Some(Escape(CString(before + s))))))
            else Send(st.(text := Some(before + s[..7]), toggle := Flip(st.toggle)), [st.toggle % 256] + Zeros(7))
  {
    CarriedOfSegment(toggle, s);
    Utf8Ascii(s[..Chunk(s)]);
    assert Chunk(s) == |s| ==> s[..Chunk(s)] == s;
  }

  /** Cut into sevens, something shorter is left. */
  predicate Ragged(n: nat) {
    if n < 7 then n > 0 else Ragged(n - 7)
  }

  lemma {:induction false} RaggedIs(n: nat)
    ensures Ragged(n) <==> n % 7 != 0
  {
    if n >= 7 {
      RaggedIs(n - 7);
      assert (n - 7) % 7 == n % 7;
    }
  }

  lemma FragmentsUnfold(toggle: nat, s: seq<byte>)
    requires s != []
    ensures var fs := Fragments(toggle, s);
            && fs != [] && fs[0] == SegmentOf(toggle, s)
            && fs[1..] == Fragments(Flip(toggle), s[Chunk(s)..])
            && (Chunk(s) == |s| ==> fs[1..] == [])
  {
    assert Chunk(s) == |s| ==> s[Chunk(s)..] == [];
  }

  /** The reader's run over the segments of `s`, by its first one. */
  lemma AssembleStarts(st: IndexState, toggle: nat, before: seq<byte>, s: seq<byte>)
    requires ToggleByte(toggle) && Ascii(s) && s != []
    requires st.text == Some(before) && st.len >= |before| + |s|
    ensures var k := Chunk(s);
            var st' := st.(text := Some(before + s[..k]), toggle := Flip(st.toggle));
            Assemble(st, Fragments(toggle, s)) ==
            if k < 7 || (k == |s| && st.len == |before| + |s|) then
              Assembly(st.(text := Some(before + s), value := StrV(Some(Escape(CString(before + s))))), 1, true)
            else
              var rest := Assemble(st', Fragments(Flip(toggle), s[k..]));
              rest.(taken := rest.taken + 1)
  {
    FirstSegment(st, toggle, before, s);
    FragmentsUnfold(toggle, s);
  }

  lemma ReadsNothing(st: IndexState, toggle: nat)
    ensures Assemble(st, Fragments(toggle, [])) == Assembly(st, 0, false)
  {
  }

  /** `r` has read `s` after `before`, where `len` bytes are expected. */
  predicate HasRead(r: Assembly, len: nat, before: seq<byte>, s: seq<byte>) {
    && r.taken == Pieces(|s|) && r.st.text == Some(before + s)
    && (r.finished <==> Ragged(|s|) || len == |before| + |s|)
    && (r.finished ==> 0 !in CString(before + s) && r.st.value == StrV(Some(Escape(CString(before + s)))))
  }

  lemma HasReadNext(r: Assembly, len: nat, before: seq<byte>, s: seq<byte>)
    requires |s| > 7 && HasRead(r, len, before + s[..7], s[7..])
    ensures HasRead(r.(taken := r.taken + 1), len, before, s)
  {
    assert before + s[..7] + s[7..] == before + s;
    PiecesNext(|s|);
  }

  lemma {:induction false} Reassembles(st: IndexState, toggle: nat, before: seq<byte>, s: seq<byte>)
    requires ToggleByte(toggle) && Ascii(s) && s != []
    requires st.text == Some(before) && st.len >= |before| + |s|
    ensures HasRead(Assemble(st, Fragments(toggle, s)), st.len, before, s)
    decreases |s|
  {
    AssembleStarts(st, toggle, before, s);
    FlipFlip(toggle, 0);
    var k := Chunk(s);
    var st' := st.(text := Some(before + s[..k]), toggle := Flip(st.toggle));
    if |s| > 7 {
      Reassembles(st', Flip(toggle), before + s[..7], s[7..]);
      HasReadNext(Assemble(st', Fragments(Flip(toggle), s[7..])), st.len, before, s);
    } else {
      PiecesNext(|s|);
      assert s[..k] == s && s[k..] == [];
      ReadsNothing(st', Flip(toggle));
    }
  }

  /**
   * Feeding the segments of an ASCII string to a reader that expects at least that many bytes, it
   * takes them all; it stops at the last one if that is short or if the expected length is reached,
   * and then has the whole string.
   */
  lemma FragmentsReassemble(st: IndexState, toggle: nat, before: seq<byte>, s: seq<byte>)
    requires ToggleByte(toggle) && Ascii(s) && s != []
    requires st.text == Some(before) && st.len >= |before| + |s|
    ensures var r := Assemble(st, Fragments(toggle, s));
            && r.taken == |Fragments(toggle, s)| == Pieces(|s|) && r.st.text == Some(before + s)
            && (r.finished <==> |s| % 7 != 0 || st.len == |before| + |s|)
            && (r.finished ==> r.st.value == StrV(Some(Escape(CString(before + s)))))
  {
    Reassembles(st, toggle, before, s);
    RaggedIs(|s|);
    FragmentCount(toggle, s);
  }

  /**
   * Round trip: the segments of any ASCII string, read with `len` set to its length, rebuild it in
   * exactly ceil(n/7) steps, also when n is a multiple of 7 and no segment has the last bit.  The
   * value stored is the string itself exactly when it is plain.
   */
  lemma RoundTrip(st: IndexState, toggle: nat, s: seq<byte>)
    requires ToggleByte(toggle) && Ascii(s) && s != []
    requires st.text == Some([]) && st.len == |s|
    ensures var r := Assemble(st, Fragments(toggle, s));
            && r.finished && r.taken == Pieces(|s|) && r.st.text == Some(s)
            && r.st.value == StrV(Some(Stored(s)))
            && (r.st.value == StrV(Some(s)) <==> Plain(s))
  {
    FragmentsReassemble(st, toggle, [], s);
    assert [] + s == s;
    Utf8Ascii(s);
    StoredIsIdentity(s);
  }

  /** Only the length test stops the reader after a multiple of seven bytes. */
  lemma LengthTestNeeded(st: IndexState, toggle: nat, s: seq<byte>)
    requires ToggleByte(toggle) && Ascii(s) && s != [] && |s| % 7 == 0
    requires st.text == Some([]) && st.len > |s|
    ensures !Assemble(st, Fragments(toggle, s)).finished
  {
    FragmentsReassemble(st, toggle, [], s);
  }
}
