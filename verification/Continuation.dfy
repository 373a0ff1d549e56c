/**
 * Continuation lines of the configuration parser.
 *
 * The line loop glues a physical line that ends in an unescaped backslash to
 * the next one, with the backslash turned into a blank, and rescans the whole
 * glued text for every physical line it adds. The specification looks at each
 * physical line alone and never at glued text.
 */
module Continuation {

  // ----- When a line goes on -----

  /** The number of backslashes a text ends in. */
  function Tail(l: string): (n: nat)
    ensures n <= |l|
  {
    if l != [] && l[|l| - 1] == '\\' then 1 + Tail(l[..|l| - 1]) else 0
  }

  lemma {:induction false} TailIs(l: string)
    ensures forall k :: |l| - Tail(l) <= k < |l| ==> l[k] == '\\'
    ensures Tail(l) < |l| ==> l[|l| - Tail(l) - 1] != '\\'
  {
    if Tail(l) > 0 {
      TailIs(l[..|l| - 1]);
    }
  }

  predicate GoesOn(l: string) {
    Tail(l) % 2 == 1
  }

  /** The escape scan: true exactly at an odd number of final backslashes. */
  method EndsEscaped(p: string) returns (escaped: bool)
    ensures escaped <==> GoesOn(p)
  {
    escaped := false;
    for e := 0 to |p|
      invariant escaped <==> GoesOn(p[..e])
    {
      assert p[..e + 1][..e] == p[..e];
      if escaped {
        escaped := false;
      } else if p[e] == '\\' {
        escaped := true;
      }
    }
    assert p[..|p|] == p;
  }

  /** A text whose last character gave way to a blank. */
  function Masked(l: string): (m: string)
    requires l != []
    ensures |m| == |l|
  {
    l[..|l| - 1] + " "
  }

  /** What precedes a blank has no bearing on the scan of what follows it. */
  lemma {:induction false} ScanOfJoinIsScanOfLine(before: string, l: string)
    requires before != [] && before[|before| - 1] != '\\'
    ensures Tail(before + l) == Tail(l)
  {
    if l == [] {
      assert before + l == before;
    } else {
      assert (before + l)[..|before + l| - 1] == before + l[..|l| - 1];
      ScanOfJoinIsScanOfLine(before, l[..|l| - 1]);
    }
  }

  /** Masking what was glued is masking the line glued last. */
  lemma MaskOfJoin(before: string, l: string)
    requires l != []
    ensures Masked(before + l) == before + Masked(l)
  {
    assert (before + l)[..|before + l| - 1] == before + l[..|l| - 1];
  }

  // ----- Logical lines, from the physical lines alone -----

  /** Whether the next physical line starts a text of its own. */
  predicate AtStart(lines: seq<string>) {
    lines == [] || !GoesOn(lines[|lines| - 1])
  }

  /** The unfinished text after `lines`: the final lines that go on, each masked. */
  function Pending(lines: seq<string>): (s: string)
    ensures s == [] <==> AtStart(lines)
    ensures s != [] ==> s[|s| - 1] == ' '
  {
    if AtStart(lines) then [] else Pending(lines[..|lines| - 1]) + Masked(lines[|lines| - 1])
  }

  /** The finished texts. */
  function Logical(lines: seq<string>): (texts: seq<string>) {
    if lines == [] then
      []
    else
      var before, l := lines[..|lines| - 1], lines[|lines| - 1];
      if GoesOn(l) then Logical(before) else Logical(before) + [Pending(before) + l]
  }

  lemma Snoc(lines: seq<string>, l: string)
    ensures GoesOn(l) ==> Logical(lines + [l]) == Logical(lines) && Pending(lines + [l]) == Pending(lines) + Masked(l)
    ensures !GoesOn(l) ==> Logical(lines + [l]) == Logical(lines) + [Pending(lines) + l] && Pending(lines + [l]) == []
  {
    assert (lines + [l])[..|lines|] == lines;
  }

  /** What the first lines finish stays finished, whatever follows. */
  lemma {:induction false} LogicalGrows(lines: seq<string>, i: nat)
    requires i <= |lines|
    ensures Logical(lines[..i]) <= Logical(lines)
    decreases |lines|
  {
    if i == |lines| {
      assert lines[..i] == lines;
    } else {
      var before := lines[..|lines| - 1];
      assert before[..i] == lines[..i];
      LogicalGrows(before, i);
    }
  }

  // ----- The line loop -----

  datatype Buffer = Absent | Held(text: string)

  /** The buffer after `lines`. */
  predicate Holds(b: Buffer, lines: seq<string>) {
    b == if AtStart(lines) then Absent else Held(Pending(lines))
  }

  /** One physical line: the buffer afterwards, and the text that is complete unless the line goes on. */
  method TakeLine(continuation: Buffer, l: string, ghost lines: seq<string>)
      returns (escaped: bool, p: string, next: Buffer)
    requires Holds(continuation, lines)
    ensures p == Pending(lines) + l
    ensures escaped <==> GoesOn(l)
    ensures Holds(next, lines + [l])
  {
    p := if continuation.Held? then continuation.text + l else l;
    Snoc(lines, l);
    if continuation.Held? {
      ScanOfJoinIsScanOfLine(continuation.text, l);
    }
    escaped := EndsEscaped(p);
    if escaped {
      MaskOfJoin(Pending(lines), l);
      next := Held(Masked(p));
    } else {
      next := Absent;
    }
  }

  /** `parse` answers from all the texts handed over so far, so it may remember the current section. */
  predicate Accepted(parse: seq<string> -> int, texts: seq<string>) {
    forall k :: 1 <= k <= |texts| ==> parse(texts[..k]) >= 0
  }

  lemma AcceptedGrows(parse: seq<string> -> int, texts: seq<string>, p: string)
    requires Accepted(parse, texts)
    ensures (texts + [p])[..|texts|] == texts
    ensures parse(texts + [p]) >= 0 ==> Accepted(parse, texts + [p])
  {
    var all := texts + [p];
    forall k | 1 <= k <= |all| && parse(all) >= 0 ensures parse(all[..k]) >= 0 {
      assert all[..k] == if k < |all| then texts[..k] else all;
    }
  }

  /**
   * Hands every logical line to `parse`, in order, until one is refused. The
   * number passed along with a text is its place among the logical lines.
   */
  method ParseLines(lines: seq<string>, parse: seq<string> -> int) returns (r: int, handed: seq<string>)
    ensures r == 0 ==> handed == Logical(lines) && Accepted(parse, handed)
    ensures r != 0 ==> r < 0 && handed != [] && handed <= Logical(lines) && parse(handed) == r
                       && Accepted(parse, handed[..|handed| - 1])
  {
    var continuation := Absent;
    handed := [];
    var i := 0;
    while i < |lines|
      invariant 0 <= i <= |lines|
      invariant Holds(continuation, lines[..i])
      invariant handed == Logical(lines[..i])
      invariant Accepted(parse, handed)
    {
      ghost var before := lines[..i];
      var escaped, p, next := TakeLine(continuation, lines[i], before);
      continuation := next;
      Snoc(before, lines[i]);
      assert lines[..i + 1] == before + [lines[i]];
      i := i + 1;
      if !escaped {
        AcceptedGrows(parse, handed, p);
        handed := handed + [p];
        r := parse(handed);
        if r < 0 {
          LogicalGrows(lines, i);
          return;
        }
      }
    }
    r := 0;
    assert lines[..i] == lines;
  }

  // ----- Wrapping long lines reads back -----

  /** A piece that may be followed by another: it ends in a blank that no backslash escapes. */
  predicate Breakable(piece: string) {
    piece != [] && piece[|piece| - 1] == ' ' && !GoesOn(piece[..|piece| - 1])
  }

  /** The line written for a piece that another follows. */
  function Broken(piece: string): (l: string)
    requires Breakable(piece)
    ensures GoesOn(l) && Masked(l) == piece
  {
    var l := piece[..|piece| - 1] + "\\";
    assert l[..|l| - 1] == piece[..|piece| - 1];
    l
  }

  /** A text in pieces: those before the last are breakable, the last one ends it. */
  datatype Text = Text(pieces: seq<string>, last: string)

  predicate AllBreakable(pieces: seq<string>) {
    forall k :: 0 <= k < |pieces| ==> Breakable(pieces[k])
  }

  predicate Writable(t: Text) {
    AllBreakable(t.pieces) && !GoesOn(t.last)
  }

  predicate AllWritable(texts: seq<Text>) {
    forall k :: 0 <= k < |texts| ==> Writable(texts[k])
  }

  function Concat(pieces: seq<string>): (s: string) {
    if pieces == [] then [] else Concat(pieces[..|pieces| - 1]) + pieces[|pieces| - 1]
  }

  function BrokenAll(pieces: seq<string>): (lines: seq<string>)
    requires AllBreakable(pieces)
  {
    if pieces == [] then [] else BrokenAll(pieces[..|pieces| - 1]) + [Broken(pieces[|pieces| - 1])]
  }

  /** The texts themselves, and the lines they are written as. */
  function Plain(texts: seq<Text>): (s: seq<string>) {
    if texts == [] then
      []
    else
      var t := texts[|texts| - 1];
      Plain(texts[..|texts| - 1]) + [Concat(t.pieces) + t.last]
  }

  function Written(texts: seq<Text>): (lines: seq<string>)
    requires AllWritable(texts)
  {
    if texts == [] then
      []
    else
      var t := texts[|texts| - 1];
      Written(texts[..|texts| - 1]) + BrokenAll(t.pieces) + [t.last]
  }

  lemma Reassociate(a: seq<string>, b: seq<string>, l: string)
    ensures a + (b + [l]) == a + b + [l]
  {
  }

  lemma {:induction false} PiecesAreGlued(lines: seq<string>, pieces: seq<string>)
    requires AtStart(lines) && AllBreakable(pieces)
    ensures Logical(lines + BrokenAll(pieces)) == Logical(lines)
    ensures Pending(lines + BrokenAll(pieces)) == Concat(pieces)
  {
    if pieces == [] {
      assert lines + BrokenAll(pieces) == lines;
    } else {
      var before, piece := pieces[..|pieces| - 1], pieces[|pieces| - 1];
      var read := BrokenAll(before);
      PiecesAreGlued(lines, before);
      Snoc(lines + read, Broken(piece));
      assert BrokenAll(pieces) == read + [Broken(piece)];
      Reassociate(lines, read, Broken(piece));
    }
  }

  /** However texts are cut into lines at unescaped blanks, reading the lines gives the texts back. */
  lemma {:induction false} WrappedTextsReadBack(texts: seq<Text>)
    requires AllWritable(texts)
    ensures Logical(Written(texts)) == Plain(texts) && AtStart(Written(texts))
  {
    if texts != [] {
      var before, t := texts[..|texts| - 1], texts[|texts| - 1];
      WrappedTextsReadBack(before);
      PiecesAreGlued(Written(before), t.pieces);
      Snoc(Written(before) + BrokenAll(t.pieces), t.last);
    }
  }

  /** Lines that go on are lost exactly when the file ends before one that does not. */
  lemma {:induction false} UnfinishedTextIsDropped(lines: seq<string>, i: nat)
    requires i <= |lines|
    ensures Logical(lines[..i]) == Logical(lines) <==> forall k :: i <= k < |lines| ==> GoesOn(lines[k])
    decreases |lines|
  {
    if i == |lines| {
      assert lines[..i] == lines;
    } else {
      var before := lines[..|lines| - 1];
      assert before[..i] == lines[..i];
      LogicalGrows(before, i);
      UnfinishedTextIsDropped(before, i);
      assert forall k :: i <= k < |before| ==> before[k] == lines[k];
    }
  }
}
