/**
 * The input file stream holding the Turing program, as the console uses it:
 * unformatted `get()`, `std::getline`, `clear()` and `seekg(0)`, with the
 * stream's end-of-file and failure flags. `bad()` never becomes true here.
 */
module CodeFiles {

  /** What `char c = file.get()` stores when `get()` fails: `(char)EOF`, the byte 0xFF. */
  const EOF_CHAR: char := '\U{FF}'

  /** The length of the first line of `d`: the index of its first '\n', or |d| if it has none. */
  function LineEnd(d: string): (j: nat)
    ensures j <= |d|
    ensures forall i :: 0 <= i < j ==> d[i] != '\n'
    ensures j < |d| ==> d[j] == '\n'
  {
    if d == [] || d[0] == '\n' then 0 else 1 + LineEnd(d[1..])
  }

  /** The strings successive `std::getline` calls produce from `d` while the stream stays good.
      The last record is the text after the last '\n': "" for an empty text or one ending in
      '\n' (that call fails), the unterminated last line otherwise (that call only sets eofbit). */
  function Records(d: string): (rs: seq<string>)
    ensures |rs| >= 1
    decreases |d|
  {
    if d == [] then [""]
    else
      var j := LineEnd(d);
      if j == |d| then [d] else [d[..j]] + Records(d[j + 1..])
  }

  function Newlines(d: string): nat
  {
    if d == [] then 0 else (if d[0] == '\n' then 1 else 0) + Newlines(d[1..])
  }

  /** The records glued back together with '\n' between them. */
  function Join(rs: seq<string>): string
    requires |rs| >= 1
  {
    if |rs| == 1 then rs[0] else rs[0] + "\n" + Join(rs[1..])
  }

  lemma {:induction false} NewlinesSplit(a: string, b: string)
    ensures Newlines(a + b) == Newlines(a) + Newlines(b)
  {
    if a != [] {
      assert (a + b)[1..] == a[1..] + b;
      NewlinesSplit(a[1..], b);
    } else {
      assert a + b == b;
    }
  }

  lemma {:induction false} NoNewlines(d: string)
    requires forall i :: 0 <= i < |d| ==> d[i] != '\n'
    ensures Newlines(d) == 0
  {
    if d != [] {
      NoNewlines(d[1..]);
    }
  }

  /** There is one record more than the text has newlines: a text that ends
      in '\n' (or is empty) yields a final empty record. */
  lemma {:induction false} RecordCount(d: string)
    ensures |Records(d)| == Newlines(d) + 1
    decreases |d|
  {
    if d != [] {
      var j := LineEnd(d);
      NoNewlines(d[..j]);
      if j < |d| {
        assert d == d[..j] + ([d[j]] + d[j + 1..]);
        NewlinesSplit(d[..j], [d[j]] + d[j + 1..]);
        NewlinesSplit([d[j]], d[j + 1..]);
        RecordCount(d[j + 1..]);
      } else {
        assert d[..j] == d;
      }
    }
  }

  /** The records are the text split at its newlines: joining them gives the text back. */
  lemma {:induction false} RecordsJoin(d: string)
    ensures Join(Records(d)) == d
    decreases |d|
  {
    if d != [] {
      var j := LineEnd(d);
      if j < |d| {
        RecordsJoin(d[j + 1..]);
        assert d == d[..j] + "\n" + d[j + 1..];
      }
    }
  }

  /** No record contains a newline. */
  lemma {:induction false} RecordsHaveNoNewline(d: string, k: nat, i: nat)
    requires k < |Records(d)| && i < |Records(d)[k]|
    ensures Records(d)[k][i] != '\n'
    decreases |d|
  {
    var j := LineEnd(d);
    if d != [] && j < |d| && k > 0 {
      RecordsHaveNoNewline(d[j + 1..], k - 1, i);
    }
  }

  /** A text ending in '\n' yields one extra, empty, last record. */
  lemma {:induction false} TrailingNewline(d: string)
    requires |d| > 0 && d[|d| - 1] == '\n'
    ensures Records(d)[|Records(d)| - 1] == ""
    decreases |d|
  {
    var j := LineEnd(d);
    assert j < |d|;
    if j + 1 < |d| {
      assert d[j + 1..][|d[j + 1..]| - 1] == '\n';
      TrailingNewline(d[j + 1..]);
    }
  }

  class CodeFile {
    const content: string
    const isOpen: bool
    var pos: nat
    var eof: bool
    var fail: bool

    ghost predicate Valid()
      reads this
    {
      pos <= |content| && (!isOpen ==> content == [])
    }

    predicate Good()
      reads this
    {
      !eof && !fail
    }

    /** The text not yet read. */
    function Rest(): string
      reads this
      requires Valid()
    {
      content[pos..]
    }

    /** What successive `get()` calls return while the stream stays good: the unread text,
        then the EOF value of the call that fails. */
    function Pending(): string
      reads this
      requires Valid()
    {
      if Good() then Rest() + [EOF_CHAR] else []
    }

    /** A stream whose file opened, positioned at its start. */
    constructor Open(text: string)
      ensures Valid() && isOpen && content == text && pos == 0 && Good()
    {
      content, isOpen := text, true;
      pos, eof, fail := 0, false, false;
    }

    /** A stream whose file could not be opened: opening set its failure flag. */
    constructor Missing()
      ensures Valid() && !isOpen && content == [] && pos == 0 && fail && !eof
    {
      content, isOpen := [], false;
      pos, eof, fail := 0, false, true;
    }

    /** `clear()` */
    method Clear()
      modifies this
      ensures Good() && pos == old(pos)
    {
      eof, fail := false, false;
    }

    /** `seekg(0)`: clears the end-of-file flag; a stream that has failed does not move, and a
        seek on a stream without a file fails. */
    method SeekStart()
      requires Valid()
      modifies this
      ensures Valid() && !eof
      ensures old(fail) ==> fail && pos == old(pos)
      ensures !old(fail) && isOpen ==> !fail && pos == 0
      ensures !old(fail) && !isOpen ==> fail && pos == old(pos)
    {
      eof := false;
      if !fail {
        if isOpen {
          pos := 0;
        } else {
          fail := true;
        }
      }
    }

    /** `get()`: the next character, or EOF with both flags set when the text is exhausted;
        on a stream that is not good it only sets the failure flag. */
    method Get() returns (c: char)
      requires Valid()
      modifies this
      ensures Valid()
      ensures old(Good()) && old(pos) < |content| ==> c == content[old(pos)] && pos == old(pos) + 1 && Good()
      ensures old(Good()) && old(pos) == |content| ==> c == EOF_CHAR && pos == old(pos) && eof && fail
      ensures !old(Good()) ==> c == EOF_CHAR && pos == old(pos) && eof == old(eof) && fail
      ensures old(Good()) ==> old(Pending()) == [c] + Pending()
    {
      if !Good() {
        fail := true;
        c := EOF_CHAR;
      } else if pos < |content| {
        c := content[pos];
        assert content[pos..] == [c] + content[pos + 1..];
        pos := pos + 1;
      } else {
        c := EOF_CHAR;
        eof, fail := true, true;
      }
    }

    /** `std::getline(file, s)` on a good stream yields the first record of the unread text and
        stays good exactly when more records follow; on a stream that is not good it yields ""
        and sets the failure flag. */
    method GetLine() returns (s: string)
      requires Valid()
      modifies this
      ensures Valid()
      ensures !old(Good()) ==> s == "" && pos == old(pos) && eof == old(eof) && fail
      ensures old(Good()) ==>
        var rs := Records(old(Rest()));
        && s == rs[0]
        && (Good() <==> |rs| > 1)
        && (Good() ==> Records(Rest()) == rs[1..])
        && (!Good() ==> pos == |content| && eof && (fail <==> old(Rest()) == ""))
    {
      if !Good() {
        fail := true;
        s := "";
      } else if pos == |content| {
        s := "";
        eof, fail := true, true;
      } else {
        var j := LineEnd(content[pos..]);
        if pos + j == |content| {
          s := content[pos..];
          pos := |content|;
          eof := true;
        } else {
          s := content[pos..pos + j];
          assert content[pos..][j + 1..] == content[pos + j + 1..];
          pos := pos + j + 1;
        }
      }
    }
  }
}
