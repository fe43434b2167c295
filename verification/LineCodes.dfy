/**
 `diff_linesToChars` and `diff_charsToLines`: every distinct line becomes one character,
 numbered through a table shared by the two texts, and back.
 */
module LineCodes {
  import opened Texts
  import opened Diffs
  import opened Sequences

  /** The text that a string of line numbers stands for. */
  function Decode(lines: seq<Text>, chars: Text): Text
    requires InTable(lines, chars)
  {
    if chars == [] then [] else lines[chars[0]] + Decode(lines, chars[1..])
  }

  predicate InTable(lines: seq<Text>, chars: Text) {
    forall i | 0 <= i < |chars| :: chars[i] < |lines|
  }

  lemma {:induction false} DecodeConcat(lines: seq<Text>, a: Text, b: Text)
    requires InTable(lines, a) && InTable(lines, b)
    ensures InTable(lines, a + b) && Decode(lines, a + b) == Decode(lines, a) + Decode(lines, b)
  {
    if a == [] {
      assert a + b == b;
    } else {
      assert (a + b)[1..] == a[1..] + b;
      DecodeConcat(lines, a[1..], b);
    }
  }

  /** Lines added to the table later do not change what earlier strings stand for. */
  lemma {:induction false} DecodeStable(lines: seq<Text>, more: seq<Text>, chars: Text)
    requires lines <= more && InTable(lines, chars)
    ensures InTable(more, chars) && Decode(more, chars) == Decode(lines, chars)
  {
    if chars != [] {
      DecodeStable(lines, more, chars[1..]);
    }
  }

  lemma DecodeSnoc(lines: seq<Text>, chars: Text, c: CodePoint)
    requires InTable(lines, chars) && c < |lines|
    ensures InTable(lines, chars + [c]) && Decode(lines, chars + [c]) == Decode(lines, chars) + lines[c]
  {
    DecodeConcat(lines, chars, [c]);
    assert [c][1..] == [] && lines[c] + [] == lines[c];
  }

  /** A line has no newline but at its end. */
  predicate OneLine(line: Text) {
    line != [] && forall k | 0 <= k < |line| - 1 :: line[k] != 10
  }

  predicate Ended(line: Text) {
    line != [] && line[|line| - 1] == 10
  }

  /** Every code stands for one line, and all lines but the last end in a newline. */
  ghost predicate Linewise(lines: seq<Text>, chars: Text)
    requires InTable(lines, chars)
  {
    forall i | 0 <= i < |chars| :: OneLine(lines[chars[i]]) && (i < |chars| - 1 ==> Ended(lines[chars[i]]))
  }

  /** Until the table is full the codes stand for lines; more of them follow if there is more text. */
  ghost predicate LinesSoFar(lines: seq<Text>, maxLines: nat, chars: Text, more: bool) {
    |lines| <= maxLines ==>
      && InTable(lines, chars) && Linewise(lines, chars)
      && (chars != [] && more ==> Ended(lines[chars[|chars| - 1]]))
  }

  lemma LinesNext(lines: seq<Text>, lines': seq<Text>, maxLines: nat, chars: Text, c: CodePoint, more: bool)
    requires lines <= lines' && c < |lines'| && LinesSoFar(lines, maxLines, chars, true)
    requires |lines'| <= maxLines ==> OneLine(lines'[c]) && (more ==> Ended(lines'[c]))
    ensures LinesSoFar(lines', maxLines, chars + [c], more)
  {
  }

  /** The line table that encoding the two texts fills. */
  class LineTable {
    var lineArray: seq<Text>
    var lineHash: map<Text, nat>

    /** Hash entries point at their own line; entry 0 is blank. */
    ghost predicate Valid()
      reads this
    {
      && lineArray != [] && lineArray[0] == []
      && (forall line | line in lineHash :: lineHash[line] < |lineArray| && lineArray[lineHash[line]] == line)
      && (forall i | 1 <= i < |lineArray| :: lineArray[i] != [] && lineArray[i] in lineHash)
    }

    constructor ()
      ensures Valid() && lineArray == [[]] && Distinct(lineArray)
    {
      lineArray := [[]];
      lineHash := map[];
    }

    /** Append a line to the table and number it. */
    method Register(line: Text) returns (code: nat)
      requires Valid() && line != []
      modifies this
      ensures Valid() && lineArray == old(lineArray) + [line] && code == |old(lineArray)|
      ensures line !in old(lineHash) && Distinct(old(lineArray)) ==> Distinct(lineArray)
    {
      lineArray := lineArray + [line];
      lineHash := lineHash[line := |lineArray| - 1];
      code := |lineArray| - 1;
    }

    /** The line that starts at lineStart, up to and including its newline if it has one. */
    method NextLine(text: Text, lineStart: nat) returns (lineEnd: int)
      requires lineStart < |text|
      ensures lineStart <= lineEnd < |text|
      ensures text[lineEnd] == NEWLINE || lineEnd == |text| - 1
      ensures forall i | lineStart <= i < lineEnd :: text[i] != NEWLINE
    {
      lineEnd := Find(text, [NEWLINE], lineStart);
      assert forall i | 0 <= i < |text| :: OccursAt(text, [NEWLINE], i) <==> text[i] == NEWLINE;
      if lineEnd == -1 {
        lineEnd := |text| - 1;
      }
    }

    /** The state of the encoding when everything before lineStart has been encoded into chars. */
    ghost predicate Encoded(start: seq<Text>, text: Text, maxLines: nat, chars: Text, lineStart: int)
      reads this
    {
      && Valid() && start <= lineArray && 0 <= lineStart <= |text| + 1
      && (|lineArray| <= maxLines || (|lineArray| == maxLines + 1 && lineStart == |text| + 1))
      && InTable(lineArray, chars) && Decode(lineArray, chars) == text[..Min(lineStart, |text|)]
      && |chars| <= Min(lineStart, |text|)
      && LinesSoFar(lineArray, maxLines, chars, lineStart < |text|)
      && (Distinct(start) && |lineArray| <= maxLines ==> Distinct(lineArray))
    }

    static lemma NextIsLine(text: Text, lineStart: nat, lineEnd: int)
      requires lineStart <= lineEnd < |text| && forall i | lineStart <= i < lineEnd :: text[i] != NEWLINE
      ensures OneLine(text[lineStart..lineEnd + 1])
      ensures text[lineEnd] == NEWLINE ==> Ended(text[lineStart..lineEnd + 1])
    {
    }

    /** Encode the line that starts at lineStart; once the table is full, everything that is left. */
    method EncodeLine(ghost start: seq<Text>, text: Text, maxLines: nat, chars: Text, lineStart: nat)
      returns (more: Text, next: nat)
      requires maxLines <= 0x10FFFF && lineStart < |text| && Encoded(start, text, maxLines, chars, lineStart)
      modifies this
      ensures Encoded(start, text, maxLines, more, next) && lineStart < next
    {
      hide Distinct, OneLine, Ended, LinesSoFar, Decode;
      ghost var table := lineArray;
      var lineEnd := NextLine(text, lineStart);
      var line := text[lineStart..lineEnd + 1];
      NextIsLine(text, lineStart, lineEnd);
      var code: nat;
      if line in lineHash {
        code := lineHash[line];
      } else {
        if |lineArray| == maxLines {
          line := text[lineStart..];
          lineEnd := |text|;
        }
        ghost var before := lineArray;
        code := Register(line);
        DecodeStable(before, lineArray, chars);
      }
      LinesNext(table, lineArray, maxLines, chars, code, lineEnd + 1 < |text|);
      DecodeSnoc(lineArray, chars, code);
      more := chars + [code];
      next := lineEnd + 1;
      assert text[..lineStart] + line == text[..Min(next, |text|)];
    }

    /**
     Encode one text. Codes always fit a character: the table stops growing, with the whole
     rest of the text as its last line, before `chr` would fail.
     */
    method Munge(text: Text, maxLines: nat) returns (chars: Text)
      requires Valid() && |lineArray| <= maxLines <= 0x10FFFF
      modifies this
      ensures Valid() && old(lineArray) <= lineArray && |lineArray| <= maxLines + 1
      ensures InTable(lineArray, chars) && Decode(lineArray, chars) == text
      ensures |chars| <= |text|
      ensures |lineArray| <= maxLines ==> Linewise(lineArray, chars)
      ensures Distinct(old(lineArray)) && |lineArray| <= maxLines ==> Distinct(lineArray)
    {
      chars := [];
      var lineStart: nat := 0;
      while lineStart < |text|
        invariant Encoded(old(lineArray), text, maxLines, chars, lineStart)
        decreases |text| + 1 - lineStart
      {
        chars, lineStart := EncodeLine(old(lineArray), text, maxLines, chars, lineStart);
      }
      assert text[..|text|] == text;
    }
  }

  /** `diff_linesToChars` */
  method LinesToChars(text1: Text, text2: Text) returns (chars1: Text, chars2: Text, lines: seq<Text>)
    ensures InTable(lines, chars1) && Decode(lines, chars1) == text1 && |chars1| <= |text1|
    ensures InTable(lines, chars2) && Decode(lines, chars2) == text2 && |chars2| <= |text2|
    ensures |lines| <= 666666 ==> Distinct(lines) && Linewise(lines, chars1) && Linewise(lines, chars2)
  {
    var table := new LineTable();
    chars1 := table.Munge(text1, 666666);
    ghost var first := table.lineArray;
    chars2 := table.Munge(text2, 1114111);
    lines := table.lineArray;
    DecodeStable(first, lines, chars1);
  }

  // ------------------------------------------------------------ rehydration

  ghost predicate ScriptInTable(lines: seq<Text>, ds: Script) {
    forall i | 0 <= i < |ds| :: InTable(lines, ds[i].text)
  }

  /** Every text of the diff decoded. */
  ghost function DecodeScript(lines: seq<Text>, ds: Script): Script
    requires ScriptInTable(lines, ds)
  {
    seq(|ds|, i requires 0 <= i < |ds| => Diff(ds[i].op, Decode(lines, ds[i].text)))
  }

  /** Decoding a diff decodes what it denotes. */
  lemma {:induction false} DecodeProject(lines: seq<Text>, ds: Script, skip: Op)
    requires ScriptInTable(lines, ds)
    ensures InTable(lines, Project(ds, skip))
    ensures Project(DecodeScript(lines, ds), skip) == Decode(lines, Project(ds, skip))
  {
    if ds != [] {
      DecodeProject(lines, ds[1..], skip);
      assert DecodeScript(lines, ds)[1..] == DecodeScript(lines, ds[1..]);
      var rest := Project(ds[1..], skip);
      assert [] + rest == rest && [] + Decode(lines, rest) == Decode(lines, rest);
      if ds[0].op != skip {
        DecodeConcat(lines, ds[0].text, rest);
      }
    }
  }

  /** A diff between two strings of codes only holds codes of those strings. */
  lemma {:induction false} ScriptCodes(lines: seq<Text>, ds: Script)
    requires InTable(lines, Source(ds)) && InTable(lines, Target(ds))
    ensures ScriptInTable(lines, ds)
  {
    if ds != [] {
      var d := ds[0];
      var s, t := Source(ds[1..]), Target(ds[1..]);
      assert d.op != Insert ==> Source(ds) == d.text + s;
      assert d.op != Delete ==> Target(ds) == d.text + t;
      assert InTable(lines, s) by {
        forall i | 0 <= i < |s| ensures s[i] < |lines| {
          assert s[i] == Source(ds)[|Source(ds)| - |s| + i];
        }
      }
      assert InTable(lines, t) by {
        forall i | 0 <= i < |t| ensures t[i] < |lines| {
          assert t[i] == Target(ds)[|Target(ds)| - |t| + i];
        }
      }
      ScriptCodes(lines, ds[1..]);
      assert InTable(lines, d.text) by {
        forall i | 0 <= i < |d.text| ensures d.text[i] < |lines| {
          assert d.op != Insert ==> d.text[i] == Source(ds)[i];
          assert d.op != Delete ==> d.text[i] == Target(ds)[i];
        }
      }
      forall i | 0 <= i < |ds| ensures InTable(lines, ds[i].text) {
        assert i > 0 ==> ds[i] == ds[1..][i - 1];
      }
    }
  }

  /** The lines of one entry, joined. */
  method JoinLines(lines: seq<Text>, chars: Text) returns (text: Text)
    requires InTable(lines, chars)
    ensures text == Decode(lines, chars)
  {
    text := [];
    for j := 0 to |chars|
      invariant text == Decode(lines, chars[..j])
    {
      assert chars[..j + 1] == chars[..j] + [chars[j]];
      DecodeSnoc(lines, chars[..j], chars[j]);
      text := text + lines[chars[j]];
    }
    assert chars[..|chars|] == chars;
  }

  /** `diff_charsToLines` */
  method CharsToLines(diffs: DiffList, lines: seq<Text>)
    requires ScriptInTable(lines, diffs.items)
    modifies diffs
    ensures diffs.items == DecodeScript(lines, old(diffs.items))
  {
    ghost var ds, goal := diffs.items, DecodeScript(lines, diffs.items);
    assert |goal| == |ds| && forall i | 0 <= i < |ds| :: goal[i] == Diff(ds[i].op, Decode(lines, ds[i].text));
    hide DecodeScript, Decode;
    for i := 0 to |diffs.items|
      invariant |diffs.items| == |ds|
      invariant forall k :: 0 <= k < i ==> diffs.items[k] == goal[k]
      invariant forall k :: i <= k < |ds| ==> diffs.items[k] == ds[k]
    {
      var text := JoinLines(lines, diffs.items[i].text);
      diffs.items := diffs.items[i := Diff(diffs.items[i].op, text)];
    }
  }
}
