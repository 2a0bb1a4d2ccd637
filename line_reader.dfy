/** A model of standard input read through `bufio.Reader.ReadString('\n')`.
    The stream is a finite character sequence; the reader is a position in
    it. Whether the stream finishes with end-of-file or with a read error is
    part of the stream, since it decides what the last read reports. */
module LineReader {

  /** Standard input: its characters, and whether it ends with a read error
      (`fails`) rather than with end-of-file. */
  datatype Stream = Stream(data: string, fails: bool)

  /** The error a read returns: none, io.EOF, or any other read error. */
  datatype ReadErr = NoErr | Eof | ReadFailed

  /** One call of ReadString: the segment returned, the reader's next
      position, and the error returned with the segment. */
  datatype Step = Step(segment: string, next: nat, err: ReadErr)

  /** Index of the first '\n' at or after `pos`, or |data| when there is none. */
  function NextNewline(data: string, pos: nat): (j: nat)
    requires pos <= |data|
    ensures pos <= j <= |data|
    ensures forall k :: pos <= k < j ==> data[k] != '\n'
    ensures j < |data| ==> data[j] == '\n'
    decreases |data| - pos
  {
    if pos == |data| || data[pos] == '\n' then pos else NextNewline(data, pos + 1)
  }

  /** ReadString('\n') on a reader at `pos`: everything up to and including
      the next '\n'; when no '\n' is left, the rest of the stream together
      with io.EOF or the stream's read error. */
  function ReadString(s: Stream, pos: nat): (st: Step)
    requires pos <= |s.data|
    ensures pos <= st.next <= |s.data| && st.segment == s.data[pos..st.next]
    ensures st.err == NoErr <==> st.segment != [] && st.segment[|st.segment| - 1] == '\n'
    ensures st.err != NoErr ==>
              st.next == |s.data| && st.err == (if s.fails then ReadFailed else Eof)
  {
    var j := NextNewline(s.data, pos);
    if j < |s.data| then Step(s.data[pos..j + 1], j + 1, NoErr)
    else Step(s.data[pos..], |s.data|, if s.fails then ReadFailed else Eof)
  }

  /** A segment holds no '\n' before its last character. */
  lemma ReadStringOneLine(s: Stream, pos: nat)
    requires pos <= |s.data|
    ensures var st := ReadString(s, pos);
      forall k :: pos <= k < st.next - 1 ==> s.data[k] != '\n'
  {
  }

  /** Length of the longest prefix of `data` that is empty or ends in '\n':
      the part of the input made of complete lines. */
  function CompleteLinesLength(data: string): (n: nat)
    ensures n <= |data|
    ensures n == 0 || data[n - 1] == '\n'
    ensures forall k :: n <= k < |data| ==> data[k] != '\n'
  {
    if data == [] then 0
    else if data[|data| - 1] == '\n' then |data|
    else CompleteLinesLength(data[..|data| - 1])
  }

  /** The three properties above pin the length down: no other prefix is
      empty or '\n'-terminated and followed only by a newline-free rest. */
  lemma CompleteLinesLengthUnique(data: string, m: nat)
    requires m <= |data|
    requires m == 0 || data[m - 1] == '\n'
    requires forall k :: m <= k < |data| ==> data[k] != '\n'
    ensures m == CompleteLinesLength(data)
  {
  }
}
