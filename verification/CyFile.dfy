/** Reading the data file line by line, and which files the host can read to their end. */
module CyFile {
  import opened Bytes
  import opened Hex
  import opened LineFraming
  import opened CyErrors

  const NEWLINE: Byte := 10
  const RETURN: Byte := 13
  const HASH: Byte := 35
  const CHUNK_SIZE: nat := 1535

  /** What is still to be read, and whether a read has run into the end. */
  datatype File = File(content: Text, eof: bool)

  datatype Read = Line(text: Text, rest: File) | NoLine(err: int)

  /** How much one `fgets` takes: up to the newline, as far as there is room. */
  function Taking(content: Text, room: nat): (n: nat)
    ensures n <= |content| && n <= room
    ensures n > 0 <==> content != [] && room > 0
    ensures n < room && n < |content| ==> n > 0 && content[n - 1] == NEWLINE
    ensures forall k :: 0 <= k < n - 1 ==> content[k] != NEWLINE
  {
    if content == [] || room == 0 then 0
    else if content[0] == NEWLINE then 1
    else 1 + Taking(content[1..], room - 1)
  }

  /** The file after one `fgets`. */
  function After(f: File): (r: File)
    requires f.content != []
    ensures |r.content| < |f.content|
  {
    var n := Taking(f.content, CHUNK_SIZE);
    File(f.content[n..], n < CHUNK_SIZE && f.content[n - 1] != NEWLINE)
  }

  /** A line without its trailing newlines and carriage returns. */
  function Stripped(line: Text): (r: Text)
    ensures |r| <= |line|
  {
    if line != [] && (line[|line| - 1] == NEWLINE || line[|line| - 1] == RETURN) then Stripped(line[..|line| - 1])
    else line
  }

  function LineOf(chunk: Text): (r: Text)
    ensures |r| <= |chunk|
  {
    Stripped(BeforeZero(chunk))
  }

  /** `CyBtldr_ReadLine`: comment lines are skipped. */
  function NextLine(f: File): (r: Read)
    ensures r.Line? ==> |r.rest.content| < |f.content| && |r.text| <= CHUNK_SIZE
    ensures r.NoLine? ==> r.err == CYRET_ERR_FILE || r.err == CYRET_ERR_EOF
    decreases |f.content|
  {
    if f.eof then NoLine(CYRET_ERR_FILE)
    else if f.content == [] then NoLine(CYRET_ERR_EOF)
    else
      if f.content[0] == HASH then NextLine(After(f))
      else Line(LineOf(f.content[..Taking(f.content, CHUNK_SIZE)]), After(f))
  }

  /** All lines up to the first error, and that error. */
  function Lines(f: File): (seq<Text>, int)
    decreases |f.content|
  {
    match NextLine(f)
    case NoLine(err) => ([], err)
    case Line(text, rest) => ([text] + Lines(rest).0, Lines(rest).1)
  }

  lemma LinesStep(f: File)
    requires !f.eof && f.content != []
    ensures var later := Lines(After(f));
            Lines(f) == if f.content[0] == HASH then later
                        else ([LineOf(f.content[..Taking(f.content, CHUNK_SIZE)])] + later.0, later.1)
  {
    hide Taking, After, LineOf;
    var later := NextLine(After(f));
    if f.content[0] == HASH {
      assert NextLine(f) == later;
    } else {
      assert NextLine(f).rest == After(f);
    }
  }

  // ---------- Which files can be read to their end ----------

  /** How many characters follow the last newline. */
  function Unterminated(content: Text): nat
  {
    if content == [] || content[|content| - 1] == NEWLINE then 0
    else 1 + Unterminated(content[..|content| - 1])
  }

  lemma {:induction false} UnterminatedSplit(a: Text, b: Text)
    ensures Unterminated(a + b) == if NEWLINE in b then Unterminated(b) else Unterminated(a) + |b|
    decreases |b|
  {
    if b == [] {
      assert a + b == a;
    } else if b[|b| - 1] != NEWLINE {
      var front := b[..|b| - 1];
      assert (a + b)[..|a + b| - 1] == a + front;
      assert b == front + [b[|b| - 1]];
      UnterminatedSplit(a, front);
    }
  }

  lemma AllUnterminated(text: Text)
    requires NEWLINE !in text
    ensures Unterminated(text) == |text|
  {
    UnterminatedSplit([], text);
    assert [] + text == text;
  }

  lemma AfterFullChunk(chunk: Text, rest: Text)
    requires chunk != []
    requires chunk[|chunk| - 1] == NEWLINE || (|chunk| == CHUNK_SIZE && NEWLINE !in chunk)
    ensures Unterminated(chunk + rest) % CHUNK_SIZE == Unterminated(rest) % CHUNK_SIZE
  {
    UnterminatedSplit(chunk, rest);
    if NEWLINE !in rest {
      AllUnterminated(rest);
      if NEWLINE !in chunk {
        AllUnterminated(chunk);
      }
    }
  }

  lemma AfterChunk(f: File)
    requires f.content != []
    ensures After(f).eof ==> 0 < Unterminated(f.content) < CHUNK_SIZE
    ensures !After(f).eof ==> Unterminated(f.content) % CHUNK_SIZE == Unterminated(After(f).content) % CHUNK_SIZE
  {
    hide Unterminated, Taking;
    var n := Taking(f.content, CHUNK_SIZE);
    var chunk, rest := f.content[..n], f.content[n..];
    assert f.content == chunk + rest;
    if After(f).eof {
      assert n == |f.content|;
      AllUnterminated(f.content);
    } else {
      AfterFullChunk(chunk, rest);
    }
  }

  /**
    The host gets through a file to its end exactly when the text after the last newline fills whole
    buffers, an empty text above all.  Otherwise the end is reported as an inaccessible file, so a last
    line without a newline makes every operation fail.
   */
  lemma {:induction false} CleanEndIff(f: File)
    requires !f.eof
    ensures Lines(f).1 == CYRET_ERR_EOF <==> Unterminated(f.content) % CHUNK_SIZE == 0
    ensures Lines(f).1 != CYRET_ERR_EOF ==> Lines(f).1 == CYRET_ERR_FILE
    decreases |f.content|
  {
    hide Taking, After, LineOf;
    if f.content != [] {
      LinesStep(f);
      AfterChunk(f);
      if After(f).eof {
        assert Lines(After(f)) == ([], CYRET_ERR_FILE);
      } else {
        CleanEndIff(After(f));
      }
    }
  }

  // ---------- Reading back what was written ----------

  predicate Writable(line: Text)
  {
    && |line| <= CHUNK_SIZE - 2 && NEWLINE !in line && 0 !in line
    && (line != [] ==> line[|line| - 1] != RETURN)
  }

  predicate IsEnding(ending: Text)
  {
    ending == [NEWLINE] || ending == [RETURN, NEWLINE]
  }

  function Joined(lines: seq<Text>, ending: Text): Text
  {
    if lines == [] then [] else lines[0] + ending + Joined(lines[1..], ending)
  }

  predicate IsComment(line: Text)
  {
    line != [] && line[0] == HASH
  }

  function Uncommented(lines: seq<Text>): seq<Text>
  {
    if lines == [] then []
    else (if IsComment(lines[0]) then [] else [lines[0]]) + Uncommented(lines[1..])
  }

  lemma {:induction false} TakingLine(line: Text, more: Text, room: nat)
    requires NEWLINE !in line && |line| < room
    ensures Taking(line + [NEWLINE] + more, room) == |line| + 1
  {
    if line != [] {
      assert (line + [NEWLINE] + more)[1..] == line[1..] + [NEWLINE] + more;
      TakingLine(line[1..], more, room - 1);
    }
  }

  lemma {:induction false} NothingBeforeZero(text: Text)
    requires 0 !in text
    ensures BeforeZero(text) == text
  {
    if text != [] {
      NothingBeforeZero(text[1..]);
    }
  }

  lemma LineBack(line: Text, ending: Text)
    requires Writable(line) && IsEnding(ending)
    ensures LineOf(line + ending) == line
  {
    NothingBeforeZero(line + ending);
    assert Stripped(line) == line;
    if ending == [NEWLINE] {
      assert (line + ending)[..|line|] == line;
    } else {
      assert (line + ending)[..|line| + 1] == line + [RETURN];
      assert (line + [RETURN])[..|line|] == line;
      assert Stripped(line + [RETURN]) == line;
      assert Stripped(line + ending) == Stripped(line + [RETURN]);
    }
  }

  /** One `fgets` takes one written line. */
  lemma AfterWritten(line: Text, ending: Text, more: Text)
    requires Writable(line) && IsEnding(ending)
    ensures var f := File(line + ending + more, false);
            Taking(f.content, CHUNK_SIZE) == |line + ending| && After(f) == File(more, false)
  {
    var content := line + ending + more;
    var front := line + ending[..|ending| - 1];
    assert content == front + [NEWLINE] + more;
    TakingLine(front, more, CHUNK_SIZE);
    assert content[|line + ending|..] == more;
  }

  /** Written lines are read back, without the comments, and the end of the file is found. */
  lemma {:induction false} WrittenLines(lines: seq<Text>, ending: Text)
    requires (forall l :: l in lines ==> Writable(l)) && IsEnding(ending)
    ensures Lines(File(Joined(lines, ending), false)) == (Uncommented(lines), CYRET_ERR_EOF)
  {
    hide LineOf, After, Taking, Writable;
    if lines != [] {
      var line, more := lines[0], Joined(lines[1..], ending);
      var f := File(Joined(lines, ending), false);
      WrittenLines(lines[1..], ending);
      assert f.content == line + ending + more;
      LinesStep(f);
      AfterWritten(line, ending, more);
      LineBack(line, ending);
      assert f.content[..|line + ending|] == line + ending;
      assert f.content[0] == (line + ending)[0];
      assert f.content[0] == HASH <==> IsComment(line);
      assert After(f) == File(more, false);
      assert Lines(After(f)) == (Uncommented(lines[1..]), CYRET_ERR_EOF);
      if IsComment(line) {
        assert Uncommented(lines) == Uncommented(lines[1..]);
      } else {
        assert Uncommented(lines) == [line] + Uncommented(lines[1..]);
      }
    } else {
      assert NextLine(File([], false)) == NoLine(CYRET_ERR_EOF);
    }
  }

  /** A line of 1535 characters fills the buffer: its newline is read as an empty line of its own. */
  lemma LongLineSplits(line: Text, more: Text)
    requires |line| == 1535 && NEWLINE !in line && 0 !in line && line[0] != HASH && line[1534] != RETURN
    ensures NextLine(File(line + [NEWLINE] + more, false)) == Line(line, File([NEWLINE] + more, false))
    ensures NextLine(File([NEWLINE] + more, false)) == Line([], File(more, false))
  {
    hide Taking;
    var content := line + [NEWLINE] + more;
    TakingWhole(line, [NEWLINE] + more);
    assert content == line + ([NEWLINE] + more);
    assert content[..1535] == line && content[1535..] == [NEWLINE] + more;
    NothingBeforeZero(line);
    TakingLine([], more, CHUNK_SIZE);
    assert [] + [NEWLINE] + more == [NEWLINE] + more;
    assert ([NEWLINE] + more)[..1] == [NEWLINE] && ([NEWLINE] + more)[1..] == more;
    NothingBeforeZero([NEWLINE]);
    assert [NEWLINE][..0] == [];
  }

  lemma {:induction false} TakingWhole(line: Text, more: Text)
    requires NEWLINE !in line
    ensures Taking(line + more, |line|) == |line|
  {
    if line != [] {
      assert (line + more)[1..] == line[1..] + more;
      TakingWhole(line[1..], more);
    }
  }

  // ---------- The file object ----------

  class DataFile {
    var content: Text
    var eof: bool

    function State(): File
      reads this
    {
      File(content, eof)
    }

    constructor (content: Text)
      ensures State() == File(content, false)
    {
      this.content, eof := content, false;
    }

    /** `fgets` of the standard library; `None` for the null pointer. */
    method Gets() returns (chunk: Option<Text>)
      modifies this
      ensures old(content) == [] ==> chunk == None && State() == File([], true)
      ensures old(content) != [] ==> chunk == Some(old(content)[..Taking(old(content), CHUNK_SIZE)])
                                     && State() == After(File(old(content), false))
    {
      if content == [] {
        chunk, eof := None, true;
      } else {
        var n := Taking(content, CHUNK_SIZE);
        chunk := Some(content[..n]);
        eof := n < CHUNK_SIZE && content[n - 1] != NEWLINE;
        content := content[n..];
      }
    }

    method ReadLine() returns (err: int, line: Text)
      modifies this
      ensures match NextLine(old(State()))
              case NoLine(e) => err == e
              case Line(text, rest) => err == CYRET_SUCCESS && line == text && State() == rest
    {
      hide Taking, LineOf, After;
      line := [];
      while true
        invariant NextLine(State()) == NextLine(old(State()))
        decreases |content|
      {
        if eof { return CYRET_ERR_FILE, []; }
        ghost var f := State();
        var chunk := Gets();
        if chunk.None? { return CYRET_ERR_EOF, []; }
        var len := Length(chunk.value);
        if chunk.value[0] != HASH { return CYRET_SUCCESS, chunk.value[..len]; }
      }
    }
  }

  /** `strlen`, then back over the line ending. */
  method Length(buffer: Text) returns (len: nat)
    ensures len <= |buffer| && buffer[..len] == LineOf(buffer)
  {
    var text := BeforeZero(buffer);
    len := |text|;
    assert text[..len] == text;
    while len > 0 && (text[len - 1] == NEWLINE || text[len - 1] == RETURN)
      invariant len <= |text| && Stripped(text[..len]) == Stripped(text)
    {
      assert text[..len][..len - 1] == text[..len - 1];
      len := len - 1;
    }
  }
}
