/** The adapter that indents what is written through it, chunk by chunk. */
module Pads {
  import opened Logic

  const PAD := "   "

  /** The text with a pad in front of every character that starts a line. */
  function Padded(s: string, onNewline: bool): string {
    if s == [] then []
    else (if onNewline then PAD else []) + [s[0]] + Padded(s[1..], s[0] == '\n')
  }

  function EndsLine(s: string, onNewline: bool): bool {
    if s == [] then onNewline else s[|s| - 1] == '\n'
  }

  /** Writing in two parts is writing the whole. */
  lemma {:induction false} PaddedAppend(a: string, b: string, onNewline: bool)
    ensures Padded(a + b, onNewline) == Padded(a, onNewline) + Padded(b, EndsLine(a, onNewline))
    ensures EndsLine(a + b, onNewline) == EndsLine(b, EndsLine(a, onNewline))
    decreases |a|
  {
    if a == [] {
      assert a + b == b;
    } else {
      assert (a + b)[1..] == a[1..] + b;
      PaddedAppend(a[1..], b, a[0] == '\n');
    }
  }

  function Joined(chunks: seq<string>): string {
    if chunks == [] then [] else chunks[0] + Joined(chunks[1..])
  }

  /** What successive writes put out, each continuing where the one before stopped. */
  function Writes(chunks: seq<string>, onNewline: bool): string {
    if chunks == [] then [] else Padded(chunks[0], onNewline) + Writes(chunks[1..], EndsLine(chunks[0], onNewline))
  }

  /** However a text is cut into chunks, the output is that of one write of the whole. */
  lemma {:induction false} ChunksImmaterial(chunks: seq<string>, onNewline: bool)
    ensures Writes(chunks, onNewline) == Padded(Joined(chunks), onNewline)
  {
    if chunks != [] {
      ChunksImmaterial(chunks[1..], EndsLine(chunks[0], onNewline));
      PaddedAppend(chunks[0], Joined(chunks[1..]), onNewline);
    }
  }

  /** Only the first character can be at the start of a line in a text without inner newlines. */
  lemma {:induction false} PaddedSegment(s: string, onNewline: bool)
    requires s != [] && forall i :: 0 <= i < |s| - 1 ==> s[i] != '\n'
    ensures Padded(s, onNewline) == (if onNewline then PAD else []) + s
  {
    if |s| > 1 {
      PaddedSegment(s[1..], false);
      assert s == [s[0]] + s[1..];
    } else {
      assert s[1..] == [];
    }
  }

  lemma NextSegment(done: string, segment: string, onNewline: bool)
    requires segment != [] && forall i :: 0 <= i < |segment| - 1 ==> segment[i] != '\n'
    ensures Padded(done + segment, onNewline) ==
            Padded(done, onNewline) + (if EndsLine(done, onNewline) then PAD else []) + segment
    ensures EndsLine(done + segment, onNewline) == (segment[|segment| - 1] == '\n')
  {
    PaddedAppend(done, segment, onNewline);
    PaddedSegment(segment, EndsLine(done, onNewline));
  }

  lemma Concat(a: string, b: string, c: string, d: string)
    ensures ((a + b) + c) + d == a + (b + c + d)
  {
  }

  /** Delete the pads again. */
  function Unpadded(out: string, onNewline: bool): string
    decreases |out|
  {
    if out == [] then []
    else if !onNewline then [out[0]] + Unpadded(out[1..], out[0] == '\n')
    else if |out| > |PAD| then [out[|PAD|]] + Unpadded(out[|PAD| + 1..], out[|PAD|] == '\n')
    else []
  }

  lemma {:induction false} PadsRemoved(s: string, onNewline: bool)
    ensures Unpadded(Padded(s, onNewline), onNewline) == s
  {
    if s != [] {
      var out := Padded(s, onNewline);
      var k := if onNewline then |PAD| else 0;
      assert out[k] == s[0] && out[k + 1..] == Padded(s[1..], s[0] == '\n');
      PadsRemoved(s[1..], s[0] == '\n');
      assert s == [s[0]] + s[1..];
    }
  }

  /** The positions at which a line starts. */
  function Starts(s: string, onNewline: bool): set<nat> {
    set i: nat | i < |s| && StartsAt(s, onNewline, i)
  }

  predicate StartsAt(s: string, onNewline: bool, i: nat)
    requires i < |s|
  {
    if i == 0 then onNewline else s[i - 1] == '\n'
  }

  /** One pad for every line that is started, blank lines included. */
  lemma {:induction false} OnePadPerLine(s: string, onNewline: bool)
    ensures |Padded(s, onNewline)| == |s| + |PAD| * |Starts(s, onNewline)|
  {
    if s == [] {
      assert Starts(s, onNewline) == {};
    } else {
      OnePadPerLine(s[1..], s[0] == '\n');
      StartsNext(s, onNewline);
    }
  }

  lemma StartsNext(s: string, onNewline: bool)
    requires s != []
    ensures |Starts(s, onNewline)| == |Starts(s[1..], s[0] == '\n')| + (if onNewline then 1 else 0)
  {
    var later := Starts(s[1..], s[0] == '\n');
    var shifted := set i | i in later :: i + 1;
    ShiftSize(later, shifted);
    forall i: nat ensures i in Starts(s, onNewline) <==> i in shifted || (i == 0 && onNewline) {
      if i > 0 { StartsLater(s, onNewline, i); }
    }
    assert Starts(s, onNewline) == shifted + (if onNewline then {0} else {});
  }

  lemma StartsLater(s: string, onNewline: bool, i: nat)
    requires s != [] && i > 0
    ensures i in Starts(s, onNewline) <==> i - 1 in Starts(s[1..], s[0] == '\n')
  {
  }

  lemma {:induction false} ShiftSize(a: set<nat>, b: set<nat>)
    requires forall i: nat :: i in b <==> i > 0 && i - 1 in a
    ensures |a| == |b|
    decreases a
  {
    if a == {} {
      assert b == {};
    } else {
      var x :| x in a;
      ShiftSize(a - {x}, b - {x + 1});
    }
  }

  /** The first occurrence of a character. */
  function Find(s: string, c: char): (r: Option<nat>)
    ensures r.Some? ==> r.value < |s| && s[r.value] == c && forall i :: 0 <= i < r.value ==> s[i] != c
    ensures r.None? ==> forall i :: 0 <= i < |s| ==> s[i] != c
  {
    if s == [] then None
    else if s[0] == c then Some(0)
    else
      match Find(s[1..], c)
      case Some(i) => Some(i + 1)
      case None => None
  }

  class PadAdapter {
    /** Everything written to the inner writer. */
    var inner: string
    var onNewline: bool

    constructor (inner: string, onNewline: bool)
      ensures this.inner == inner && this.onNewline == onNewline
    {
      this.inner, this.onNewline := inner, onNewline;
    }

    method WriteStr(s: string)
      modifies this
      ensures inner == old(inner) + Padded(s, old(onNewline)) && onNewline == EndsLine(s, old(onNewline))
    {
      var rest := s;
      ghost var done: string := [];
      while rest != []
        invariant s == done + rest
        invariant inner == old(inner) + Padded(done, old(onNewline)) && onNewline == EndsLine(done, old(onNewline))
        decreases |rest|
      {
        var split := WriteSegment(rest);
        NextSegment(done, rest[..split], old(onNewline));
        Concat(old(inner), Padded(done, old(onNewline)), if EndsLine(done, old(onNewline)) then PAD else [],
               rest[..split]);
        done := done + rest[..split];
        rest := rest[split..];
      }
      assert done == s;
    }

    /** Write up to and including the first newline. */
    method WriteSegment(rest: string) returns (split: nat)
      requires rest != []
      modifies this
      ensures 0 < split <= |rest| && forall i :: 0 <= i < split - 1 ==> rest[i] != '\n'
      ensures split < |rest| ==> rest[split - 1] == '\n'
      ensures inner == old(inner) + (if old(onNewline) then PAD else []) + rest[..split]
      ensures onNewline == (rest[split - 1] == '\n')
    {
      if onNewline {
        inner := inner + PAD;
      }
      match Find(rest, '\n') {
        case Some(pos) =>
          onNewline := true;
          split := pos + 1;
        case None =>
          onNewline := false;
          split := |rest|;
      }
      inner := inner + rest[..split];
    }
  }
}
