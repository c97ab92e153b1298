/** Serial::readline and Serial::readlines: cutting a byte stream, which may time out, into lines. */
module SerialLines {
  import opened ArtNetBytes

  /** The bytes that arrive before a read times out. */
  type Stream = seq<byte>

  /** The first n bytes are long enough to end in eol, and do. */
  predicate EndsLine(s: Stream, n: nat, eol: seq<byte>)
    requires n <= |s|
  {
    |eol| <= n && s[n - |eol|..n] == eol
  }

  // ----- readline

  /** How many bytes readline takes when it has k already: it stops after one, or not at all. */
  function Taken(s: Stream, size: nat, eol: seq<byte>, k: nat): (n: nat)
    requires k <= |s|
    ensures k <= n <= |s|
    decreases |s| - k
  {
    if k == |s| then k
    else
      var n := k + 1;
      if n < |eol| then Taken(s, size, eol, n)
      else if EndsLine(s, n, eol) then n
      else if n == size then n
      else Taken(s, size, eol, n)
  }

  /** Nonempty prefixes of the stream that end in eol. */
  predicate IsLine(s: Stream, n: nat, eol: seq<byte>) {
    1 <= n <= |s| && EndsLine(s, n, eol)
  }

  /**
   * With room for a line of at least one byte and one eol, readline returns the shortest prefix
   * that ends in eol; if none fits, everything up to size or up to the timeout.
   */
  lemma {:induction false} TakenIsShortestLine(s: Stream, size: nat, eol: seq<byte>, k: nat)
    requires size >= 1 && size >= |eol| && k < size && k <= |s|
    requires forall m :: 0 <= m <= k ==> !IsLine(s, m, eol)
    ensures var n := Taken(s, size, eol, k);
      n <= size && (forall m :: 0 <= m < n ==> !IsLine(s, m, eol)) &&
      (IsLine(s, n, eol) || n == Min(size, |s|))
    decreases |s| - k
  {
    if k < |s| {
      var n := k + 1;
      if n < |eol| || (!EndsLine(s, n, eol) && n != size) {
        TakenIsShortestLine(s, size, eol, n);
      }
    }
  }

  /**
   * readline writes past its buffer of size bytes if and only if size leaves no room for one byte
   * or for eol, and more than size bytes arrive.
   */
  lemma OverrunExactly(s: Stream, size: nat, eol: seq<byte>)
    ensures Taken(s, size, eol, 0) > size <==> (size == 0 || size < |eol|) && |s| > size
    ensures (size == 0 || size < |eol|) && |s| <= size ==> Taken(s, size, eol, 0) == |s|
  {
    if size >= 1 && size >= |eol| {
      TakenIsShortestLine(s, size, eol, 0);
    } else if |s| > size {
      TakesPastLimit(s, size, eol, 0);
    } else {
      TakesAll(s, size, eol, 0);
    }
  }

  lemma {:induction false} TakesAll(s: Stream, size: nat, eol: seq<byte>, k: nat)
    requires k <= |s| <= size && (size == 0 || size < |eol|)
    ensures Taken(s, size, eol, k) == |s|
    decreases |s| - k
  {
    if k < |s| {
      TakesAll(s, size, eol, k + 1);
    }
  }

  lemma {:induction false} TakesPastLimit(s: Stream, size: nat, eol: seq<byte>, k: nat)
    requires |s| > size && (size == 0 || size < |eol|) && k <= size
    ensures Taken(s, size, eol, k) > size
    decreases size - k
  {
    if k < size {
      TakesPastLimit(s, size, eol, k + 1);
    }
  }

  lemma SameTail(a: seq<byte>, b: seq<byte>, n: nat, k: nat)
    requires k <= n <= |a| && n <= |b| && a[..n] == b[..n]
    ensures a[n - k..n] == b[n - k..n]
  {
    assert a[n - k..n] == a[..n][n - k..];
    assert b[n - k..n] == b[..n][n - k..];
  }

  lemma TakenStep(s: Stream, size: nat, eol: seq<byte>, k: nat)
    requires k <= |s|
    ensures Taken(s, size, eol, k) ==
      if k == |s| then k
      else if |eol| <= k + 1 && (s[k + 1 - |eol|..k + 1] == eol || k + 1 == size) then k + 1
      else Taken(s, size, eol, k + 1)
  {
  }

  /** A line appended to the caller's text with the number of its bytes, or a write past the buffer. */
  datatype Line = Line(text: seq<byte>, count: nat) | Overrun

  /** Serial::readline: one byte at a time into a buffer of size bytes; the line is appended to text. */
  method ReadLine(s: Stream, text: seq<byte>, size: nat, eol: seq<byte>) returns (line: Line)
    ensures var n := Taken(s, size, eol, 0);
      line == if n > size then Overrun else Line(text + s[..n], n)
  {
    hide Taken;
    var buffer := new byte[size](_ => 0);
    var count := 0;
    while true
      invariant count <= size && count <= |s| && buffer[..count] == s[..count]
      invariant Taken(s, size, eol, 0) == Taken(s, size, eol, count)
      decreases |s| - count
    {
      TakenStep(s, size, eol, count);
      if count == |s| {
        break;
      }
      if count == size {
        return Overrun;
      }
      buffer[count] := s[count];
      count := count + 1;
      if count < |eol| {
        continue;
      }
      SameTail(buffer[..], s, count, |eol|);
      if buffer[count - |eol|..count] == eol {
        break;
      }
      if count == size {
        break;
      }
    }
    line := Line(text + buffer[..count], count);
  }

  // ----- readlines

  function Concat(lines: seq<seq<byte>>): seq<byte> {
    if lines == [] then [] else Concat(lines[..|lines| - 1]) + lines[|lines| - 1]
  }

  /** The positions lines end at when they are put one after the other. */
  function Ends(lines: seq<seq<byte>>): seq<nat> {
    if lines == [] then [] else Ends(lines[..|lines| - 1]) + [|Concat(lines)|]
  }

  /** Where the line that position n belongs to begins: the last place up to n where a line ends. */
  function LineStart(s: Stream, n: nat, eol: seq<byte>): (start: nat)
    requires n <= |s|
    ensures start <= n
  {
    if n == 0 || IsLine(s, n, eol) then n else LineStart(s, n - 1, eol)
  }

  /** The lines completed within the first n bytes. */
  function CompleteLines(s: Stream, n: nat, eol: seq<byte>): seq<seq<byte>>
    requires n <= |s|
  {
    if n == 0 then []
    else CompleteLines(s, n - 1, eol) + if IsLine(s, n, eol) then [s[LineStart(s, n - 1, eol)..n]] else []
  }

  /** What readlines returns when it has read n bytes: the last line may lack its eol. */
  function LinesOf(s: Stream, n: nat, eol: seq<byte>): seq<seq<byte>>
    requires n <= |s|
  {
    var start := LineStart(s, n, eol);
    CompleteLines(s, n, eol) + if start < n then [s[start..n]] else []
  }

  lemma AppendLine(lines: seq<seq<byte>>, line: seq<byte>)
    ensures Concat(lines + [line]) == Concat(lines) + line
    ensures Ends(lines + [line]) == Ends(lines) + [|Concat(lines)| + |line|]
  {
    assert (lines + [line])[..|lines|] == lines;
  }

  lemma {:induction false} CompleteConcat(s: Stream, n: nat, eol: seq<byte>)
    requires n <= |s|
    ensures Concat(CompleteLines(s, n, eol)) == s[..LineStart(s, n, eol)]
  {
    hide IsLine, Concat, Ends;
    if n == 0 {
      NoLines();
    } else {
      CompleteConcat(s, n - 1, eol);
      if IsLine(s, n, eol) {
        var start := LineStart(s, n - 1, eol);
        AppendLine(CompleteLines(s, n - 1, eol), s[start..n]);
        assert s[..start] + s[start..n] == s[..n];
      } else {
        assert CompleteLines(s, n, eol) == CompleteLines(s, n - 1, eol);
      }
    }
  }

  lemma NoLines()
    ensures Concat([]) == [] && Ends([]) == []
  {
  }

  lemma {:induction false} CompleteNonempty(s: Stream, n: nat, eol: seq<byte>)
    requires n <= |s|
    ensures [] !in CompleteLines(s, n, eol)
  {
    hide IsLine;
    if n > 0 {
      CompleteNonempty(s, n - 1, eol);
    }
  }

  lemma {:induction false} CompleteEnds(s: Stream, n: nat, eol: seq<byte>, m: nat)
    requires n <= |s|
    ensures m in Ends(CompleteLines(s, n, eol)) <==> m <= n && IsLine(s, m, eol)
  {
    hide Concat, Ends, EndsLine;
    if n == 0 {
      NoLines();
    } else {
      CompleteEnds(s, n - 1, eol, m);
      if IsLine(s, n, eol) {
        var start := LineStart(s, n - 1, eol);
        CompleteConcat(s, n - 1, eol);
        AppendLine(CompleteLines(s, n - 1, eol), s[start..n]);
      } else {
        assert CompleteLines(s, n, eol) == CompleteLines(s, n - 1, eol);
      }
    }
  }

  lemma {:induction false} StartIsCut(s: Stream, n: nat, eol: seq<byte>)
    requires n <= |s|
    ensures LineStart(s, n, eol) > 0 ==> IsLine(s, LineStart(s, n, eol), eol)
  {
    if n > 0 {
      StartIsCut(s, n - 1, eol);
    }
  }

  /**
   * The lines are nonempty, put together they are exactly the first n bytes, and they end at
   * exactly the positions where what has been consumed ends in eol, and at its end.
   */
  lemma LinesExactly(s: Stream, n: nat, eol: seq<byte>, m: nat)
    requires n <= |s|
    ensures Concat(LinesOf(s, n, eol)) == s[..n] && [] !in LinesOf(s, n, eol)
    ensures m in Ends(LinesOf(s, n, eol)) <==> (m <= n && IsLine(s, m, eol)) || (m == n && n > 0)
  {
    hide Concat, Ends, IsLine, CompleteLines, LineStart;
    CompleteConcat(s, n, eol);
    CompleteNonempty(s, n, eol);
    CompleteEnds(s, n, eol, m);
    var start := LineStart(s, n, eol);
    var whole := CompleteLines(s, n, eol);
    if start < n {
      AppendLine(whole, s[start..n]);
      assert s[..start] + s[start..n] == s[..n];
    } else {
      StartIsCut(s, n, eol);
      assert whole + [] == whole;
    }
  }

  /**
   * What readlines returns. With size below the length of eol it never gets past the length
   * test, so a full buffer is thrown away; only a timeout still pushes what was read.
   */
  function Returned(s: Stream, size: nat, eol: seq<byte>): seq<seq<byte>> {
    if size < |eol| && size <= |s| then [] else LinesOf(s, Min(size, |s|), eol)
  }

  /**
   * What readlines returns, for every stream, size and eol: with room for eol, or a timeout before
   * the buffer is full, the consumed bytes cut at exactly the places where what has been consumed
   * ends in eol, and at the end; otherwise nothing.
   */
  lemma ReturnedExactly(s: Stream, size: nat, eol: seq<byte>, m: nat)
    ensures var lines := Returned(s, size, eol);
      var n := if size < |s| then size else |s|;
      if size >= |eol| || |s| < size then
        Concat(lines) == s[..n] && [] !in lines &&
        (m in Ends(lines) <==>
          1 <= m <= n && (m == n || (|eol| <= m && forall j :: 0 <= j < |eol| ==> s[m - |eol| + j] == eol[j])))
      else lines == []
  {
    hide LinesOf, Concat, Ends;
    LinesExactly(s, Min(size, |s|), eol, m);
    if 1 <= m <= |s| {
      IsLineBytes(s, m, eol);
    }
  }

  lemma IsLineBytes(s: Stream, n: nat, eol: seq<byte>)
    requires 1 <= n <= |s|
    ensures IsLine(s, n, eol) <==> |eol| <= n && forall j :: 0 <= j < |eol| ==> s[n - |eol| + j] == eol[j]
  {
    if |eol| <= n {
      var last := s[n - |eol|..n];
      assert forall j :: 0 <= j < |eol| ==> last[j] == s[n - |eol| + j];
    }
  }

  /** No byte that was consumed is lost if and only if size is zero or fits eol, or a timeout came first. */
  lemma NothingLostExactly(s: Stream, size: nat, eol: seq<byte>)
    ensures Concat(Returned(s, size, eol)) == s[..Min(size, |s|)]
      <==> size == 0 || size >= |eol| || |s| < size
  {
    hide LinesOf, Ends;
    LinesExactly(s, Min(size, |s|), eol, 0);
    NoLines();
  }

  lemma Uncut(s: Stream, n: nat, eol: seq<byte>)
    requires n <= |s| && n < |eol|
    ensures LineStart(s, n, eol) == 0 && CompleteLines(s, n, eol) == []
  {
    if n > 0 {
      Uncut(s, n - 1, eol);
    }
  }

  /** One more byte that ends a line, or does not. */
  lemma OneMore(s: Stream, n: nat, eol: seq<byte>)
    requires n < |s|
    ensures var start, read := LineStart(s, n, eol), s[..n + 1];
      if |eol| <= n + 1 && read[n + 1 - |eol|..] == eol
      then LineStart(s, n + 1, eol) == n + 1 &&
        CompleteLines(s, n + 1, eol) == CompleteLines(s, n, eol) + [read[start..]]
      else LineStart(s, n + 1, eol) == start && CompleteLines(s, n + 1, eol) == CompleteLines(s, n, eol)
  {
    IsLineMeans(s, n + 1, eol);
    hide IsLine;
    assert s[..n + 1][LineStart(s, n, eol)..] == s[LineStart(s, n, eol)..n + 1];
  }

  lemma IsLineMeans(s: Stream, n: nat, eol: seq<byte>)
    requires 1 <= n <= |s|
    ensures IsLine(s, n, eol) <==> |eol| <= n && s[..n][n - |eol|..] == eol
  {
    assert |eol| <= n ==> s[..n][n - |eol|..] == s[n - |eol|..n];
  }

  lemma Finish(s: Stream, n: nat, eol: seq<byte>)
    requires n <= |s|
    ensures var start := LineStart(s, n, eol);
      LinesOf(s, n, eol) ==
        if start != n then CompleteLines(s, n, eol) + [s[..n][start..]] else CompleteLines(s, n, eol)
  {
    hide IsLine, CompleteLines, LineStart;
    assert s[..n][LineStart(s, n, eol)..] == s[LineStart(s, n, eol)..n];
  }

  /** Pushes the bytes from start on as one more line. */
  method Push(lines: seq<seq<byte>>, buffer: array<byte>, start: nat, count: nat, ghost read: seq<byte>)
    returns (more: seq<seq<byte>>)
    requires start <= count <= buffer.Length && buffer[..count] == read
    ensures more == lines + [read[start..]]
  {
    more := lines + [buffer[start..count]];
    assert buffer[start..count] == buffer[..count][start..];
  }

  /** Compares the last bytes of the buffer with eol. */
  method EndsIn(buffer: array<byte>, count: nat, eol: seq<byte>, ghost read: seq<byte>) returns (ends: bool)
    requires |eol| <= count <= buffer.Length && buffer[..count] == read
    ensures ends <==> read[count - |eol|..] == eol
  {
    ends := buffer[count - |eol|..count] == eol;
    assert buffer[count - |eol|..count] == buffer[..count][count - |eol|..];
  }

  /** Serial::readlines. */
  method ReadLines(s: Stream, size: nat, eol: seq<byte>) returns (lines: seq<seq<byte>>)
    ensures lines == Returned(s, size, eol)
  {
    hide IsLine, CompleteLines, LineStart, LinesOf;
    var buffer := new byte[size](_ => 0);
    var count, start := 0, 0;
    lines := [];
    StartAtZero(s, eol);
    while count < size
      invariant count <= |s| && count <= size && buffer[..count] == s[..count]
      invariant start == LineStart(s, count, eol)
      invariant lines == CompleteLines(s, count, eol)
      invariant count == size ==> size == 0 || size < |eol|
      decreases size - count
    {
      if count == |s| {
        Finish(s, count, eol);
        if start != count {
          lines := Push(lines, buffer, start, count, s[..count]);
        }
        return;
      }
      OneMore(s, count, eol);
      buffer[count] := s[count];
      count := count + 1;
      ghost var read := s[..count];
      assert buffer[..count] == read;
      if count < |eol| {
        continue;
      }
      var ends := EndsIn(buffer, count, eol, read);
      if ends {
        lines := Push(lines, buffer, start, count, read);
        start := count;
      }
      if count == size {
        Finish(s, count, eol);
        if start != count {
          lines := Push(lines, buffer, start, count, read);
        }
        return;
      }
    }
    ReadNothing(s, count, eol);
  }

  lemma StartAtZero(s: Stream, eol: seq<byte>)
    ensures LineStart(s, 0, eol) == 0 && CompleteLines(s, 0, eol) == []
  {
  }

  /** A buffer that filled up before it could hold eol, or that had no room at all. */
  lemma ReadNothing(s: Stream, n: nat, eol: seq<byte>)
    requires n <= |s| && (n < |eol| || n == 0)
    ensures CompleteLines(s, n, eol) == [] && (n == 0 ==> LinesOf(s, n, eol) == [])
  {
    if n > 0 {
      Uncut(s, n, eol);
    }
  }
}
