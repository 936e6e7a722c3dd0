/**
 * The material list read by `set_model` in Source/misc.h: the text file
 * next to a model names one material per line, and line i goes to material
 * slot i. Each character stands for one byte of the file. Loading the model,
 * opening the file and looking the materials up in the resource cache are
 * engine calls and are not part of this model; what is modelled is how the
 * text becomes (slot, name) pairs.
 */
module MaterialList {
  /** The size of the buffer the list is read into; anything longer is cut off. */
  const MaxListSize: nat := 10000

  /** Material slot `index` is to get the material called `name`. */
  datatype Slot = Slot(index: nat, name: string)

  /** What one read into the 10000-byte buffer keeps of the file. */
  function Truncate(contents: string): (s: string)
    ensures |s| <= MaxListSize
    ensures |contents| <= MaxListSize ==> s == contents
    ensures |contents| > MaxListSize ==> |s| == MaxListSize
    ensures s == contents[..|s|]
  {
    if |contents| <= MaxListSize then contents else contents[..MaxListSize]
  }

  /** Where the line starting at `pos` ends: the first '\n' from `pos` on, or the end of `s`. */
  function NextNewline(s: string, pos: nat): (r: nat)
    requires pos <= |s|
    ensures pos <= r <= |s|
    ensures r < |s| ==> s[r] == '\n'
    decreases |s| - pos
  {
    if pos == |s| || s[pos] == '\n' then pos else NextNewline(s, pos + 1)
  }

  /** No '\n' comes between `pos` and the one NextNewline finds. */
  lemma {:induction false} NextNewlineIsFirst(s: string, pos: nat)
    requires pos <= |s|
    ensures forall k :: pos <= k < NextNewline(s, pos) ==> s[k] != '\n'
    decreases |s| - pos
  {
    if pos < |s| && s[pos] != '\n' {
      NextNewlineIsFirst(s, pos + 1);
    }
  }

  /** The outcome of one std::getline: a line and where the stream stands after it, or the end. */
  datatype LineRead = EndOfStream | Line(text: string, next: nat)

  /**
   * std::getline on a string stream standing at `pos`: it fails only when
   * nothing is left, and otherwise moves the stream forward. GetLineReads
   * says what the line is.
   */
  function GetLine(s: string, pos: nat): (r: LineRead)
    requires pos <= |s|
    ensures r.EndOfStream? <==> pos == |s|
    ensures r.Line? ==> pos < r.next <= |s|
  {
    if pos == |s| then EndOfStream
    else
      var end := NextNewline(s, pos);
      Line(s[pos..end], if end < |s| then end + 1 else end)
  }

  /**
   * The line getline reads runs up to the next '\n', which is consumed but
   * not kept, or up to the end of the text, and holds no '\n' itself.
   */
  lemma GetLineReads(s: string, pos: nat)
    requires pos < |s|
    ensures GetLine(s, pos).Line?
    ensures var r := GetLine(s, pos); var end := pos + |r.text|;
      && end <= |s|
      && r.text == s[pos..end]
      && (forall k :: 0 <= k < |r.text| ==> r.text[k] != '\n')
      && ((end < |s| && s[end] == '\n' && r.next == end + 1) || r.next == end == |s|)
  {
    NextNewlineIsFirst(s, pos);
  }

  /** The lines successive getline calls return from `pos` on. */
  function LinesFrom(s: string, pos: nat): (r: seq<string>)
    requires pos <= |s|
    ensures r == [] <==> pos == |s|
    ensures |r| <= |s| - pos
    decreases |s| - pos
  {
    match GetLine(s, pos)
    case EndOfStream => []
    case Line(text, next) => [text] + LinesFrom(s, next)
  }

  /** Before the end, the lines from `pos` are the one getline reads there and those after it. */
  lemma LinesFromStep(s: string, pos: nat, line: string, next: nat)
    requires pos <= |s| && GetLine(s, pos) == Line(line, next)
    ensures next <= |s| && LinesFrom(s, pos) == [line] + LinesFrom(s, next)
  {
  }

  /** A suffix of a sequence that starts with `x` followed by `rest`. */
  lemma SuffixStep<T>(xs: seq<T>, i: nat, x: T, rest: seq<T>)
    requires i <= |xs| && xs[i..] == [x] + rest
    ensures i < |xs| && xs[i] == x && xs[i + 1..] == rest
  {
    assert xs[i..][0] == x;
    assert xs[i + 1..] == xs[i..][1..];
  }

  /** The lines the `for` loop of set_model visits, in order. */
  function Lines(s: string): (r: seq<string>)
    ensures r == [] <==> s == []
    ensures |r| <= |s|
  {
    LinesFrom(s, 0)
  }

  /** The text that consists of exactly these lines, each ended by '\n'. */
  function JoinLines(ls: seq<string>): string
  {
    if ls == [] then [] else ls[0] + "\n" + JoinLines(ls[1..])
  }

  /** No line holds a '\n'. */
  ghost predicate NewlineFree(ls: seq<string>)
  {
    forall i, k :: 0 <= i < |ls| && 0 <= k < |ls[i]| ==> ls[i][k] != '\n'
  }

  lemma {:induction false} LinesFromNewlineFree(s: string, pos: nat)
    requires pos <= |s|
    ensures NewlineFree(LinesFrom(s, pos))
    decreases |s| - pos
  {
    match GetLine(s, pos)
    case EndOfStream =>
    case Line(text, next) =>
      GetLineReads(s, pos);
      LinesFromNewlineFree(s, next);
      var ls := LinesFrom(s, pos);
      assert ls == [text] + LinesFrom(s, next);
      assert forall i :: 0 < i < |ls| ==> ls[i] == LinesFrom(s, next)[i - 1];
  }

  lemma JoinCons(line: string, rest: seq<string>)
    ensures JoinLines([line] + rest) == line + "\n" + JoinLines(rest)
  {
    assert ([line] + rest)[1..] == rest;
  }

  /** Whether the text from `pos` on lacks a final '\n', so that joining its lines adds one. */
  predicate OpenEnded(s: string, pos: nat)
  {
    pos < |s| && s[|s| - 1] != '\n'
  }

  lemma SplitAtNewline(s: string, pos: nat, end: nat)
    requires pos <= end < |s| && s[end] == '\n'
    ensures s[pos..] == s[pos..end] + "\n" + s[end + 1..]
  {
  }

  /** Putting the first line back in front of the rest keeps an added final '\n' at the very end. */
  lemma PrependLine(line: string, tail: string, rest: string, joined: string, text: string, open: bool)
    requires joined == line + "\n" + tail
    requires text == line + "\n" + rest
    requires tail == if open then rest + "\n" else rest
    ensures joined == if open then text + "\n" else text
  {
  }

  /** Joining the lines read from `pos` gives back the text from `pos`, plus a '\n' if it lacked one. */
  ghost predicate JoinsBack(s: string, pos: nat)
    requires pos <= |s|
  {
    JoinLines(LinesFrom(s, pos)) == if OpenEnded(s, pos) then s[pos..] + "\n" else s[pos..]
  }

  /** A line ended by '\n': joining back from just after it extends to joining back from its start. */
  lemma JoinsBackOverNewline(s: string, pos: nat)
    requires pos < |s|
    requires GetLine(s, pos).next == pos + |GetLine(s, pos).text| + 1
    requires JoinsBack(s, GetLine(s, pos).next)
    ensures JoinsBack(s, pos)
  {
    GetLineReads(s, pos);
    var line, next := GetLine(s, pos).text, GetLine(s, pos).next;
    var tail := JoinLines(LinesFrom(s, next));
    var joined := JoinLines(LinesFrom(s, pos));
    assert joined == line + "\n" + tail by {
      assert LinesFrom(s, pos) == [line] + LinesFrom(s, next);
      JoinCons(line, LinesFrom(s, next));
    }
    SplitAtNewline(s, pos, pos + |line|);
    assert OpenEnded(s, pos) == OpenEnded(s, next);
    PrependLine(line, tail, s[next..], joined, s[pos..], OpenEnded(s, pos));
  }

  /** The last line, not ended by '\n': joining it back adds the missing '\n'. */
  lemma JoinsBackLastLine(s: string, pos: nat)
    requires pos < |s|
    requires GetLine(s, pos).next != pos + |GetLine(s, pos).text| + 1
    ensures JoinsBack(s, pos)
  {
    GetLineReads(s, pos);
    var line, next := GetLine(s, pos).text, GetLine(s, pos).next;
    assert next == |s| && s[pos..] == line && OpenEnded(s, pos) by {
      assert s[|s| - 1] == line[|line| - 1];
    }
    assert LinesFrom(s, pos) == [line] + LinesFrom(s, next);
    JoinCons(line, LinesFrom(s, next));
  }

  lemma {:induction false} LinesFromJoin(s: string, pos: nat)
    requires pos <= |s|
    ensures JoinsBack(s, pos)
    decreases |s| - pos
  {
    if pos < |s| {
      var r := GetLine(s, pos);
      if r.next == pos + |r.text| + 1 {
        LinesFromJoin(s, r.next);
        JoinsBackOverNewline(s, pos);
      } else {
        JoinsBackLastLine(s, pos);
      }
    }
  }

  /**
   * Splitting and joining are inverse: the lines of a text, each put back
   * with its '\n', give the text again, with a '\n' added only when the text
   * did not already end with one (so a final '\n' starts no extra empty line).
   */
  lemma LinesRoundTrip(s: string)
    ensures NewlineFree(Lines(s))
    ensures JoinLines(Lines(s)) == if s != [] && s[|s| - 1] != '\n' then s + "\n" else s
  {
    LinesFromNewlineFree(s, 0);
    LinesFromJoin(s, 0);
    assert JoinsBack(s, 0);
    assert s[0..] == s;
  }

  /** A text that starts with a newline-free line and a '\n' yields that line first. */
  lemma ReadsFirstLine(s: string, pos: nat, line: string, rest: string)
    requires pos <= |s|
    requires forall k :: 0 <= k < |line| ==> line[k] != '\n'
    requires s[pos..] == line + "\n" + rest
    ensures pos + |line| + 1 <= |s|
    ensures GetLine(s, pos) == Line(line, pos + |line| + 1)
    ensures s[pos + |line| + 1..] == rest
  {
    var end := pos + |line|;
    assert s[end] == (line + "\n" + rest)[|line|];
    assert forall k :: pos <= k < end ==> s[k] == line[k - pos];
    NextNewlineIsFirst(s, pos);
    var e := NextNewline(s, pos);
    assert e == end;
    assert s[pos..end] == line;
  }

  /** A sequence made of the first element of `ls` and the rest of `ls` is `ls`. */
  lemma ConsBack<T>(whole: seq<T>, x: T, tail: seq<T>, ls: seq<T>)
    requires ls != [] && whole == [x] + tail && x == ls[0] && tail == ls[1..]
    ensures whole == ls
  {
    assert ls == [ls[0]] + ls[1..];
  }

  /** The text spells these lines from `pos` on: they are newline-free and joined give the rest of it. */
  ghost predicate Spells(s: string, pos: nat, ls: seq<string>)
  {
    pos <= |s| && NewlineFree(ls) && s[pos..] == JoinLines(ls)
  }

  /** Reading a line where the text spells lines reads the first of them and leaves the rest spelled. */
  lemma SpellsStep(s: string, pos: nat, ls: seq<string>)
    requires Spells(s, pos, ls) && ls != []
    ensures pos < |s|
    ensures GetLine(s, pos) == Line(ls[0], pos + |ls[0]| + 1)
    ensures Spells(s, pos + |ls[0]| + 1, ls[1..])
  {
    var line, more := ls[0], ls[1..];
    assert forall k :: 0 <= k < |line| ==> line[k] != '\n';
    ReadsFirstLine(s, pos, line, JoinLines(more));
    assert NewlineFree(more) by {
      forall i, k | 0 <= i < |more| && 0 <= k < |more[i]| ensures more[i][k] != '\n' {
        assert more[i] == ls[i + 1];
      }
    }
  }

  lemma {:induction false} JoinFromLines(s: string, pos: nat, ls: seq<string>)
    requires Spells(s, pos, ls)
    ensures LinesFrom(s, pos) == ls
    decreases ls
  {
    if ls == [] {
      assert |s[pos..]| == |JoinLines(ls)| == 0;
    } else {
      var next := pos + |ls[0]| + 1;
      SpellsStep(s, pos, ls);
      JoinFromLines(s, next, ls[1..]);
      LinesFromStep(s, pos, ls[0], next);
      ConsBack(LinesFrom(s, pos), ls[0], LinesFrom(s, next), ls);
    }
  }

  /** Joining newline-free lines and splitting the result gives the same lines back. */
  lemma JoinSplitRoundTrip(ls: seq<string>)
    requires NewlineFree(ls)
    ensures Lines(JoinLines(ls)) == ls
  {
    var s := JoinLines(ls);
    assert s[0..] == s;
    assert Spells(s, 0, ls);
    JoinFromLines(s, 0, ls);
  }

  /**
   * The name given to a material: the line with one trailing '\r' removed,
   * so that lists written with "\r\n" line ends give the same names.
   */
  function StripCR(line: string): (r: string)
    requires line != []
    ensures line[|line| - 1] == '\r' ==> r + "\r" == line
    ensures line[|line| - 1] != '\r' ==> r == line
  {
    if line[|line| - 1] == '\r' then line[..|line| - 1] else line
  }

  /**
   * From `pos` on, no line the loop visits is empty: every '\n' closes a line
   * with at least one character in it. set_model reads the last character of
   * each line, which an empty line does not have.
   */
  ghost predicate NoEmptyLineFrom(s: string, pos: nat)
  {
    forall k :: pos <= k < |s| && s[k] == '\n' ==> pos < k && s[k - 1] != '\n'
  }

  ghost predicate NoEmptyLine(s: string)
  {
    NoEmptyLineFrom(s, 0)
  }

  /** One getline: the line it reads is non-empty exactly when no empty line starts at `pos`. */
  lemma GetLineNoEmpty(s: string, pos: nat)
    requires pos < |s|
    ensures GetLine(s, pos).Line?
    ensures NoEmptyLineFrom(s, pos) <==>
      GetLine(s, pos).text != [] && NoEmptyLineFrom(s, GetLine(s, pos).next)
  {
    var r := GetLine(s, pos);
    GetLineReads(s, pos);
    var end := pos + |r.text|;
    if NoEmptyLineFrom(s, pos) {
      assert s[pos] != '\n';
      forall k | r.next <= k < |s| && s[k] == '\n'
        ensures r.next < k && s[k - 1] != '\n'
      {
        assert pos < k && s[k - 1] != '\n';
      }
    }
    if r.text != [] && NoEmptyLineFrom(s, r.next) {
      assert forall j :: pos <= j < end ==> s[j] == r.text[j - pos];
      forall k | pos <= k < |s| && s[k] == '\n'
        ensures pos < k && s[k - 1] != '\n'
      {
        assert !(k < end);
        if k == end {
          assert s[k - 1] == r.text[|r.text| - 1];
        } else {
          assert r.next <= k;
        }
      }
    }
  }

  /** Every line is non-empty. */
  ghost predicate AllNonEmpty(ls: seq<string>)
  {
    forall i :: 0 <= i < |ls| ==> ls[i] != []
  }

  lemma AllNonEmptyCons(line: string, rest: seq<string>)
    ensures AllNonEmpty([line] + rest) <==> line != [] && AllNonEmpty(rest)
  {
    var ls := [line] + rest;
    assert ls[0] == line;
    assert forall i :: 0 <= i < |rest| ==> ls[i + 1] == rest[i];
  }

  lemma {:induction false} NoEmptyLineFromIff(s: string, pos: nat)
    requires pos <= |s|
    ensures NoEmptyLineFrom(s, pos) <==> AllNonEmpty(LinesFrom(s, pos))
    decreases |s| - pos
  {
    if pos < |s| {
      var r := GetLine(s, pos);
      GetLineNoEmpty(s, pos);
      NoEmptyLineFromIff(s, r.next);
      assert LinesFrom(s, pos) == [r.text] + LinesFrom(s, r.next);
      AllNonEmptyCons(r.text, LinesFrom(s, r.next));
    }
  }

  /** The text has no empty line exactly when every line set_model visits is non-empty. */
  lemma NoEmptyLineIff(s: string)
    ensures NoEmptyLine(s) <==> AllNonEmpty(Lines(s))
  {
    NoEmptyLineFromIff(s, 0);
    assert Lines(s) == LinesFrom(s, 0);
  }

  /**
   * The loop of set_model that assigns materials: the text read (at most
   * 10000 characters of the file) is split into lines, each loses one
   * trailing '\r', and line i names the material for slot i. Every line must
   * be non-empty (NoEmptyLineIff says which texts those are).
   */
  method MaterialSlots(contents: string) returns (slots: seq<Slot>)
    requires AllNonEmpty(Lines(Truncate(contents)))
    ensures |slots| == |Lines(Truncate(contents))|
    ensures forall i :: 0 <= i < |slots| ==>
      slots[i] == Slot(i, StripCR(Lines(Truncate(contents))[i]))
  {
    var s := Truncate(contents);
    var pos: nat := 0;
    var i: nat := 0;
    slots := [];
    var read := GetLine(s, pos);
    while read.Line?
      invariant pos <= |s|
      invariant read == GetLine(s, pos)
      invariant i == |slots| <= |Lines(s)|
      invariant LinesFrom(s, pos) == Lines(s)[i..]
      invariant forall k :: 0 <= k < i ==> slots[k] == Slot(k, StripCR(Lines(s)[k]))
      decreases |s| - pos
    {
      var line := read.text;
      LinesFromStep(s, pos, line, read.next);
      SuffixStep(Lines(s), i, line, LinesFrom(s, read.next));
      if line[|line| - 1] == '\r' {
        line := line[..|line| - 1];
      }
      slots := slots + [Slot(i, line)];
      pos := read.next;
      i := i + 1;
      read := GetLine(s, pos);
    }
  }

  /** A list mixing "\r\n" and "\n" line ends splits into its three lines, '\r' still attached. */
  lemma MixedLineEndsSplit()
    ensures Lines("stone\r\nwood\nmetal\n") == ["stone\r", "wood", "metal"]
  {
    var ls := ["stone\r", "wood", "metal"];
    assert JoinLines(ls) == "stone\r\nwood\nmetal\n" by {
      assert JoinLines(ls[2..]) == "metal\n";
      assert JoinLines(ls[1..]) == "wood\nmetal\n";
    }
    JoinSplitRoundTrip(ls);
  }

  /** The material slots of that list: the '\r' is gone from the first name. */
  method MaterialSlotsUsage()
  {
    var text := "stone\r\nwood\nmetal\n";
    MixedLineEndsSplit();
    assert Truncate(text) == text;
    var slots := MaterialSlots(text);
    assert slots[0] == Slot(0, StripCR("stone\r"));
    assert StripCR("stone\r") == "stone";
    assert slots[1] == Slot(1, "wood") && slots[2] == Slot(2, "metal");
  }
}
