/**
 * The progress bar Make prints while ECJ compiles: the compiler announces the
 * total work, then reports the remaining work; the bar has 80 chunks, and is
 * redrawn on the same console line (ended by '\r') whenever the number of
 * completed chunks changes, the line being ended by '\n' once nothing remains.
 */
module Progress {
  import opened Wrappers

  /** Java's int. */
  newtype Int32 = x: int | -0x8000_0000 <= x < 0x8000_0000

  const ChunksCount: int := 80

  /** The 32-bit two's complement wrap-around of Java int arithmetic. */
  function Wrap32(x: int): (r: int)
    ensures -0x8000_0000 <= r < 0x8000_0000
    ensures -0x8000_0000 <= x < 0x8000_0000 ==> r == x
  {
    (x + 0x8000_0000) % 0x1_0000_0000 - 0x8000_0000
  }

  /** Java's long division, truncating toward zero. */
  function JavaDiv(a: int, b: int): (q: int)
    requires b != 0
    ensures a >= 0 && b > 0 ==> q == a / b
  {
    var magnitude := (if a < 0 then -a else a) / (if b < 0 then -b else b);
    if (a < 0) != (b < 0) then -magnitude else magnitude
  }

  /** The completed chunks: the work done (an int difference), times 80, divided by the total work in long arithmetic. */
  function Chunk(totalWork: Int32, remainingWork: Int32): int
    requires totalWork != 0
  {
    JavaDiv(Wrap32(totalWork as int - remainingWork as int) * ChunksCount, totalWork as int)
  }

  /** `n` copies of `c` (none when `n` is not positive). */
  function Repeat(c: char, n: int): (r: string)
    ensures |r| == if n > 0 then n else 0
    ensures forall i :: 0 <= i < |r| ==> r[i] == c
    decreases if n > 0 then n else 0
  {
    if n <= 0 then [] else Repeat(c, n - 1) + [c]
  }

  /** The bar drawn for `chunk`: '#' for the chunks done, '-' up to the 80th, then a carriage return. */
  function Bar(chunk: int): string {
    Repeat('#', chunk) + Repeat('-', ChunksCount - chunk) + "\r"
  }

  /** While the remaining work stays between none and all of it, the bar has between 0 and 80 chunks. */
  lemma ChunkInRange(totalWork: Int32, remainingWork: Int32)
    requires 0 <= remainingWork <= totalWork && totalWork != 0
    ensures 0 <= Chunk(totalWork, remainingWork) <= ChunksCount
  {
    var done := totalWork as int - remainingWork as int;
    assert done * ChunksCount <= totalWork as int * ChunksCount;
    DivBelow(done * ChunksCount, totalWork as int, ChunksCount);
  }

  lemma MulCancel(b: int, x: int, y: int)
    requires b > 0 && b * x <= b * y
    ensures x <= y
  {
  }

  lemma MulCancelStrict(b: int, x: int, y: int)
    requires b > 0 && b * x < b * y
    ensures x < y
  {
  }

  lemma DivBelow(a: int, b: int, k: int)
    requires 0 <= a <= b * k && b > 0
    ensures a / b <= k
  {
    MulCancel(b, a / b, k);
  }

  /** The bar is full exactly when nothing remains. */
  lemma {:induction false} ChunkFull(totalWork: Int32, remainingWork: Int32)
    requires 0 <= remainingWork <= totalWork && totalWork != 0
    ensures Chunk(totalWork, remainingWork) == ChunksCount <==> remainingWork == 0
  {
    var t := totalWork as int;
    var done := t - remainingWork as int;
    if remainingWork == 0 {
      assert done * ChunksCount == t * ChunksCount;
      assert (t * ChunksCount) / t == ChunksCount;
    } else {
      assert done * ChunksCount < t * ChunksCount;
      BelowFull(done * ChunksCount, t, ChunksCount);
    }
  }

  lemma BelowFull(a: int, b: int, k: int)
    requires 0 <= a < b * k && b > 0
    ensures a / b < k
  {
    MulCancelStrict(b, a / b, k);
  }

  /** Less work remaining never draws fewer chunks. */
  lemma ChunkMonotone(totalWork: Int32, before: Int32, after: Int32)
    requires 0 <= after <= before <= totalWork && totalWork != 0
    ensures Chunk(totalWork, before) <= Chunk(totalWork, after)
  {
    var t := totalWork as int;
    var a := (t - before as int) * ChunksCount;
    var b := (t - after as int) * ChunksCount;
    assert 0 <= a <= b;
    DivMonotone(a, b, t);
  }

  lemma DivMonotone(a: int, b: int, d: int)
    requires 0 <= a <= b && d > 0
    ensures a / d <= b / d
  {
    var qa, qb := a / d, b / d;
    assert d * qa <= a;
    assert b < d * qb + d;
    assert d * qb + d == d * (qb + 1);
    MulCancelStrict(d, qa, qb + 1);
  }

  /** A bar for 0 to 80 chunks is 80 characters and a carriage return, the '#' first. */
  lemma BarShape(chunk: int)
    requires 0 <= chunk <= ChunksCount
    ensures |Bar(chunk)| == ChunksCount + 1
    ensures forall i :: 0 <= i < chunk ==> Bar(chunk)[i] == '#'
    ensures forall i :: chunk <= i < ChunksCount ==> Bar(chunk)[i] == '-'
    ensures Bar(chunk)[ChunksCount] == '\r'
  {
    var hashes := Repeat('#', chunk);
    var dashes := Repeat('-', ChunksCount - chunk);
    assert Bar(chunk) == hashes + dashes + "\r";
    forall i | chunk <= i < ChunksCount ensures Bar(chunk)[i] == '-' {
      assert Bar(chunk)[i] == dashes[i - chunk];
    }
  }

  /** MakeCompilationProgress: the total work announced, the chunk last drawn, and what was printed. */
  class CompilationProgress {
    var totalWork: Int32
    var currentChunk: int
    var printed: string

    constructor()
      ensures totalWork == 0 && currentChunk == 0 && printed == []
    {
      totalWork := 0;
      currentChunk := 0;
      printed := [];
    }

    /** begin: the total work is the work remaining at the start. */
    method Begin(remainingWork: Int32)
      modifies this
      ensures totalWork == remainingWork
      ensures currentChunk == old(currentChunk) && printed == old(printed)
    {
      totalWork := remainingWork;
    }

    /**
     * worked: with no total work the division raises ArithmeticException;
     * otherwise the bar is redrawn when the chunk changed, and the line is
     * ended once no work remains.
     */
    method Worked(workIncrement: Int32, remainingWork: Int32) returns (r: Result<(), Failure>)
      modifies this
      ensures totalWork == old(totalWork)
      ensures old(totalWork) == 0 ==> r == Failure(Arithmetic("/ by zero")) && currentChunk == old(currentChunk) && printed == old(printed)
      ensures old(totalWork) != 0 ==>
        var chunk := Chunk(old(totalWork), remainingWork);
        && r.Success?
        && currentChunk == chunk
        && printed == old(printed) + (if chunk != old(currentChunk) then Bar(chunk) else []) + (if remainingWork == 0 then "\n" else [])
    {
      if totalWork == 0 {
        return Failure(Arithmetic("/ by zero"));
      }
      var chunk := Chunk(totalWork, remainingWork);
      if chunk != currentChunk {
        currentChunk := chunk;
        DrawBar(chunk);
      }
      if remainingWork == 0 {
        printed := printed + "\n";
      }
      r := Success(());
    }

    /** The two printing loops and the carriage return that redraw the bar. */
    method DrawBar(chunk: int)
      modifies this
      ensures printed == old(printed) + Bar(chunk)
      ensures totalWork == old(totalWork) && currentChunk == old(currentChunk)
    {
      ghost var start := printed;
      var i := 0;
      while i < chunk
        invariant i <= (if chunk > 0 then chunk else 0)
        invariant printed == start + Repeat('#', i)
        invariant totalWork == old(totalWork) && currentChunk == old(currentChunk)
      {
        printed := printed + "#";
        i := i + 1;
      }
      ghost var drawn := printed;
      i := chunk;
      while i < ChunksCount
        invariant chunk <= i && (i <= ChunksCount || i == chunk)
        invariant printed == drawn + Repeat('-', i - chunk)
        invariant totalWork == old(totalWork) && currentChunk == old(currentChunk)
      {
        printed := printed + "-";
        i := i + 1;
      }
      printed := printed + "\r";
      assert printed == start + Bar(chunk);
    }
  }
}
