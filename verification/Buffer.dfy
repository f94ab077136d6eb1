/** buffer.c: a byte buffer that is filled in chunks and read line by line. */
module Buffer {
  import opened Machine

  const SIZE_LIMIT := SIZE_MAX + 1  // size_t wraps here
  const BUFFER_LIMIT := SSIZE_MAX - 1
  const INITIAL_SIZE := 64

  // ----- growth with wrap-around

  /** `from`, doubled `k` times in size_t arithmetic. */
  function Doubled(from: nat, k: nat): nat {
    if k == 0 then from else (2 * Doubled(from, k - 1)) % SIZE_LIMIT
  }

  lemma Factored(x: int, a: int, b: int, p: int)
    requires a * b == SIZE_LIMIT && x == a * p
    ensures x % SIZE_LIMIT == a * (p - b * (x / SIZE_LIMIT))
  {
    var t := x / SIZE_LIMIT;
    assert x % SIZE_LIMIT == x - SIZE_LIMIT * t;
    assert SIZE_LIMIT * t == a * b * t == a * (b * t);
    assert a * (p - b * t) == a * p - a * (b * t);
  }

  lemma Twice(d: int, a: int, p: int)
    requires d == a * p
    ensures 2 * d == (2 * a) * p
  {
  }

  /** Each doubling leaves one more zero bit at the end. */
  lemma {:induction false} DoubledFactor(from: nat, k: nat) returns (q: int)
    requires k <= 64
    ensures Doubled(from, k) == Pow2(k) * q
  {
    if k == 0 {
      q := from;
    } else {
      var p := DoubledFactor(from, k - 1);
      Twice(Doubled(from, k - 1), Pow2(k - 1), p);
      q := p - Pow2(64 - k) * (2 * Doubled(from, k - 1) / SIZE_LIMIT);
      PowersOfLimit(k);
      Factored(2 * Doubled(from, k - 1), Pow2(k), Pow2(64 - k), p);
    }
  }

  lemma PowersOfLimit(k: nat)
    requires k <= 64
    ensures Pow2(k) * Pow2(64 - k) == SIZE_LIMIT
  {
    Pow2Of64();
    Pow2Sum(k, 64 - k);
  }

  /** After 64 doublings nothing is left. */
  lemma DoubledOut(from: nat)
    ensures Doubled(from, 64) == 0
  {
    var q := DoubledFactor(from, 64);
    Pow2Of64();
    assert Doubled(from, 64) == SIZE_LIMIT * q;
  }

  /** From 0, doubling leads nowhere: the size stays below every `to`, is never smaller
      than `from`, and the loop of _buffer_new_realloc_size would not end. */
  lemma {:induction false} DoublingZero(k: nat)
    ensures Doubled(0, k) == 0
  {
    if k > 0 {
      DoublingZero(k - 1);
    }
  }

  /** _buffer_new_realloc_size: at least `to`, after at most 64 turns, for every
      `from` but 0, although doubling may wrap around several times unnoticed.  Up to
      the last turn each doubled size is below `to` and not seen to have wrapped. */
  method NewReallocSize(from: nat, to: nat) returns (size: nat, ghost turns: nat)
    requires 0 < from < to < SIZE_LIMIT
    ensures to <= size < SIZE_LIMIT && turns <= 64
    ensures forall j :: 0 <= j < turns ==> from <= Doubled(from, j) < to
    ensures size == if Doubled(from, turns) < from then to else Doubled(from, turns)
  {
    size, turns := from, 0;
    while size < to
      invariant 0 <= size < SIZE_LIMIT && turns <= 64
      invariant forall j :: 0 <= j < turns ==> from <= Doubled(from, j) < to
      invariant size == if Doubled(from, turns) < from then to else Doubled(from, turns)
      decreases 64 - turns
    {
      DoubledOut(from);
      size := size * 2 % SIZE_LIMIT;
      turns := turns + 1;
      if size < from {
        size := to;
      }
    }
  }

  // ----- lines

  ghost predicate NoNewline(s: string) {
    forall i :: 0 <= i < |s| ==> s[i] != '\n'
  }

  ghost predicate Lines(lines: seq<string>) {
    forall i :: 0 <= i < |lines| ==> NoNewline(lines[i])
  }

  /** The lines from place `n` on, with their newlines put back. */
  ghost function Joined(lines: seq<string>, n: nat): string
    requires n <= |lines|
    decreases |lines| - n
  {
    if n == |lines| then [] else lines[n] + ['\n'] + Joined(lines, n + 1)
  }

  lemma {:induction false} JoinedMore(lines: seq<string>, line: string, n: nat)
    requires n <= |lines|
    ensures Joined(lines + [line], n) == Joined(lines, n) + (line + ['\n'])
    decreases |lines| - n
  {
    if n < |lines| {
      JoinedMore(lines, line, n + 1);
      Regroup(lines[n] + ['\n'], Joined(lines, n + 1), line + ['\n']);
    } else {
      assert Joined(lines + [line], n + 1) == [];
    }
  }

  lemma Regroup(a: string, b: string, c: string)
    ensures a + (b + c) == (a + b) + c
  {
  }

  lemma CutAt(s: string, i: nat)
    requires i < |s|
    ensures s == (s[..i] + [s[i]]) + s[i + 1..]
  {
  }

  class Buffer {
    var data: array<char>
    var len: nat
    var msize: nat
    const maxSize: nat
    var valid: bool

    ghost predicate Valid()
      reads this, data
    {
      && data.Length == msize && INITIAL_SIZE <= msize < SIZE_LIMIT
      && 0 < maxSize <= BUFFER_LIMIT && len <= maxSize && len <= msize
    }

    ghost function Contents(): string
      requires len <= data.Length
      reads this`data, this`len, data
    {
      data[..len]
    }

    constructor (maxSize: nat)
      requires 0 < maxSize <= BUFFER_LIMIT
      ensures Valid() && valid && Contents() == [] && this.maxSize == maxSize && fresh(data)
    {
      this.maxSize, msize, len, valid := maxSize, INITIAL_SIZE, 0, true;
      data := new char[INITIAL_SIZE];
    }

    /** buffer_clear */
    method Clear()
      requires Valid()
      modifies this`len, this`valid
      ensures Valid() && valid && Contents() == []
    {
      len, valid := 0, true;
    }

    /** Room for `n` more bytes: neither `msize + n` nor the new size wraps around. */
    method Grow(n: nat) returns (ghost turns: nat)
      requires Valid() && len + n <= maxSize && n > msize - len
      modifies this`data, this`msize
      ensures Valid() && len + n <= msize && Contents() == old(Contents()) && fresh(data)
      ensures msize >= old(msize) + n && forall j :: 0 <= j < turns ==> old(msize) <= Doubled(old(msize), j) < old(msize) + n
      ensures msize == if Doubled(old(msize), turns) < old(msize) then old(msize) + n else Doubled(old(msize), turns)
    {
      assert msize + n < SIZE_LIMIT;
      var size;
      size, turns := NewReallocSize(msize, msize + n);
      var grown := new char[size];
      forall i | 0 <= i < msize {
        grown[i] := data[i];
      }
      ghost var before := data[..len];
      data, msize := grown, size;
      assert data[..len] == before;
    }

    /** buffer.c:181-182 */
    method Write(chunk: string)
      requires Valid() && len + |chunk| <= msize && len + |chunk| <= maxSize
      modifies this`len, data
      ensures Valid() && Contents() == old(Contents()) + chunk
    {
      ghost var before := data[..len];
      forall i | 0 <= i < |chunk| {
        data[len + i] := chunk[i];
      }
      assert data[..len] == before && data[len..len + |chunk|] == chunk;
      len := len + |chunk|;
    }

    /** buffer.c:257-258: the first `n` bytes leave. */
    method Consume(n: nat)
      requires Valid() && n <= len
      modifies this`len, data
      ensures Valid() && Contents() == old(Contents())[n..]
    {
      len := len - n;
      forall i | 0 <= i < len {
        data[i] := data[n + i];
      }
    }

    /** buffer_fill: takes the chunk whole, or turns invalid if it exceeds the maximum. */
    method Fill(chunk: string) returns (accepted: bool)
      requires Valid()
      modifies this, data
      ensures Valid() && (data == old(data) || fresh(data)) && valid == accepted
      ensures accepted <==> old(valid) && old(len) + |chunk| <= maxSize
      ensures Contents() == old(Contents()) + if accepted then chunk else []
      ensures if accepted && |chunk| > old(msize) - old(len) then msize >= old(msize) + |chunk| else msize == old(msize) && data == old(data)
    {
      if !valid {
        return false;
      }
      if maxSize - len < |chunk| {
        valid := false;
      } else {
        if |chunk| > msize - len {
          ghost var turns := Grow(|chunk|);
        }
        Write(chunk);
      }
      return valid;
    }

    /** _buffer_copy_to_string: the first `n` bytes and a 0 in the caller's memory `dst`,
        of which `size` bytes are known to be there; without room for them all, in new
        memory, whose length is then given as `n`, one less than there is. */
    method CopyToString(n: nat, dst: array<char>, size: nat) returns (dst': array<char>, size': nat)
      requires Valid() && n <= len && size <= dst.Length && dst != data
      modifies dst
      ensures size' <= dst'.Length && n < dst'.Length && (dst' == dst || fresh(dst'))
      ensures dst'[..n] == data[..n] && dst'[n] == '\0'
      ensures size' == if n + 1 > size then n else size
      ensures if n + 1 > size then fresh(dst') && dst'.Length == n + 1 else dst' == dst
    {
      dst', size' := dst, size;
      if n + 1 > size {
        size' := n;
        dst' := new char[n + 1];
      }
      forall i | 0 <= i < n {
        dst'[i] := data[i];
      }
      dst'[n] := '\0';
    }

    /** memchr(): the place of the first newline, or `len`. */
    method Memchr() returns (i: nat)
      requires Valid()
      ensures i <= len && NoNewline(Contents()[..i]) && (i < len ==> data[i] == '\n')
    {
      i := 0;
      while i < len && data[i] != '\n'
        invariant i <= len && forall j :: 0 <= j < i ==> data[j] != '\n'
      {
        i := i + 1;
      }
    }

    /** buffer_read_line: the first line leaves the buffer, with its newline. */
    method ReadLine(dst: array<char>, size: nat) returns (found: bool, dst': array<char>, size': nat, ghost line: string)
      requires Valid() && size <= dst.Length && dst != data
      modifies this`len, data, dst
      ensures Valid() && size' <= dst'.Length && (dst' == dst || fresh(dst'))
      ensures found <==> valid && !NoNewline(old(Contents()))
      ensures found ==> NoNewline(line) && old(Contents()) == (line + ['\n']) + Contents()
      ensures found ==> |line| < dst'.Length && dst'[..|line|] == line && dst'[|line|] == '\0'
      ensures found ==> size' == if |line| + 1 > size then |line| else size
      ensures found ==> if |line| + 1 > size then fresh(dst') && dst'.Length == |line| + 1 else dst' == dst
      ensures !found ==> Contents() == old(Contents()) && dst' == dst && size' == size
    {
      found, dst', size', line := false, dst, size, [];
      if !valid {
        return;
      }
      var slen := Memchr();
      if slen < len {
        ghost var all := Contents();
        dst', size' := CopyToString(slen, dst, size);
        line := data[..slen];
        assert line == all[..slen];
        Consume(slen + 1);
        CutAt(all, slen);
        found := true;
      } else {
        assert Contents()[..slen] == Contents();
      }
    }

    /** buffer_flush: a copy of everything; the buffer keeps it. */
    method Flush(dst: array<char>, size: nat) returns (flushed: bool, dst': array<char>, size': nat)
      requires Valid() && size <= dst.Length && dst != data
      modifies dst
      ensures size' <= dst'.Length && (dst' == dst || fresh(dst'))
      ensures flushed <==> valid && Contents() != []
      ensures flushed ==> len < dst'.Length && dst'[..len] == Contents() && dst'[len] == '\0'
      ensures flushed ==> size' == if len + 1 > size then len else size
      ensures flushed ==> if len + 1 > size then fresh(dst') && dst'.Length == len + 1 else dst' == dst
      ensures !flushed ==> dst' == dst && size' == size
    {
      flushed, dst', size' := false, dst, size;
      if valid && len > 0 {
        dst', size' := CopyToString(len, dst, size);
        flushed := true;
      }
    }
  }
}
