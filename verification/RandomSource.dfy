/**
 src/slh_dsa/utils.c and the pointer of sign_stats.c: the thread-local state of a signing
 session. All of it belongs to one thread, so it is one object here.
 */
module RandomSource {
  import opened Bits
  import opened Engine
  import opened Stats

  /** `g_random_data` with `g_random_data_size`: a null pointer or a buffer. */
  datatype Source = Null | Data(bytes: Bytes)

  class Thread {
    var source: Source
    var offset: nat
    var failed: bool
    var stats: SignStats?

    constructor ()
      ensures Idle()
    {
      source, offset, failed, stats := Null, 0, false, null;
    }

    /** Between public calls: no random source and no stats session is installed. */
    predicate Idle()
      reads this
    {
      source == Null && offset == 0 && stats == null
    }

    /** The offset stays inside the installed buffer. */
    predicate Valid()
      reads this
    {
      source.Data? && |source.bytes| > 0 ==> offset < |source.bytes|
    }

    method ClearFailure()
      modifies this`failed
      ensures !failed
    {
      failed := false;
    }

    /** `slh_dsa_init_random_source`. */
    method InitSource(data: Bytes)
      modifies this`source, this`offset, this`failed
      ensures source == Data(data) && offset == 0 && !failed
    {
      source, offset := Data(data), 0;
      ClearFailure();
    }

    /** `slh_dsa_restore_original_random`; the failure flag is left for the caller to read. */
    method RestoreSource()
      modifies this`source, this`offset
      ensures source == Null && offset == 0
    {
      source, offset := Null, 0;
    }

    /** `bitcoin_pqc_sign_stats_begin`. */
    method BeginStats(s: SignStats, p: Params)
      modifies this`stats, s
      ensures stats == s && s.r == Fresh(p.forscCap, p.wotscCap)
    {
      s.r := Fresh(p.forscCap, p.wotscCap);
      stats := s;
    }

    /** `bitcoin_pqc_sign_stats_end`. */
    method EndStats()
      modifies this`stats
      ensures stats == null
    {
      stats := null;
    }

    /** `custom_slh_randombytes_impl`: copies runs out of the buffer into `out`, wrapping round at its end. */
    method RandomBytes(out: array?<byte>, outlen: nat)
      requires Valid() && (out != null ==> outlen <= out.Length)
      modifies this`offset, this`failed, if out == null then {} else {out}
      ensures Valid()
      ensures outlen == 0 ==> failed == old(failed) && offset == old(offset)
      ensures outlen > 0 && (out == null || source == Null || source == Data([])) ==> failed && offset == old(offset)
      ensures outlen > 0 && out != null && (source == Null || source == Data([])) ==> out[..outlen] == Zeros(outlen)
      ensures out != null && source.Data? && source.bytes != [] ==>
        && failed == old(failed) && out[..outlen] == Cycle(source.bytes, old(offset), outlen)
        && offset == Wrap(old(offset) + outlen, |source.bytes|)
      ensures out != null ==> out[outlen..] == old(out[outlen..])
    {
      if outlen == 0 {
        if source.Data? && source.bytes != [] { CycleOffset(offset, |source.bytes|); }
        return;
      }
      if out == null {
        failed := true;
        return;
      }
      if source == Null || source == Data([]) {
        failed := true;
        forall i | 0 <= i < outlen { out[i] := 0; }
        return;
      }
      hide Cycle, Wrap;
      var data, size := source.bytes, |source.bytes|;
      ghost var start := offset;
      var position: nat := 0;
      CycleOffset(start, size);
      while position < outlen
        invariant position <= outlen && offset == Wrap(start + position, size) && failed == old(failed)
        invariant out[..position] == Cycle(data, start, position) && out[outlen..] == old(out[outlen..])
        decreases outlen - position
      {
        var remaining := size - offset;
        var toCopy := outlen - position;
        if toCopy > remaining {
          toCopy := remaining;
        }
        CopyRun(data, start, position, toCopy);
        Copy(out, position, data[offset..offset + toCopy], outlen);
        position := position + toCopy;
        offset := Wrap(offset + toCopy, size);
      }
    }
  }

  /** `memcpy(out + at, run, |run|)`, inside the first `outlen` bytes. */
  method Copy(out: array<byte>, at: nat, run: Bytes, outlen: nat)
    requires at + |run| <= outlen <= out.Length
    modifies out
    ensures out[..at + |run|] == old(out[..at]) + run && out[outlen..] == old(out[outlen..])
  {
    ghost var done := out[..at];
    forall i | 0 <= i < |run| { out[at + i] := run[i]; }
    assert out[..at] == done && out[at..at + |run|] == run;
    assert out[..at + |run|] == out[..at] + out[at..at + |run|];
  }

  /** The reduction of a position into a buffer of `size` bytes. */
  function Wrap(x: nat, size: nat): (r: nat)
    requires size > 0
    ensures r < size
  {
    x % size
  }

  /** `n` bytes of the endless repetition of `data`, from position `start`. */
  function Cycle(data: Bytes, start: nat, n: nat): (r: Bytes)
    requires data != []
    ensures |r| == n && forall k | 0 <= k < n :: r[k] == data[Wrap(start + k, |data|)]
  {
    seq(n, k requires k >= 0 => data[Wrap(start + k, |data|)])
  }

  lemma CycleOffset(offset: nat, size: nat)
    requires offset < size
    ensures Wrap(offset, size) == offset
  {
  }

  lemma WrapShift(x: nat, t: nat, size: nat)
    requires size > 0 && Wrap(x, size) + t <= size
    ensures Wrap(x + t, size) == if Wrap(x, size) + t == size then 0 else Wrap(x, size) + t
    ensures Wrap(Wrap(x, size) + t, size) == Wrap(x + t, size)
  {
    var q, o := x / size, x % size;
    assert x == size * q + o;
    if o + t == size {
      assert x + t == size * (q + 1) + 0;
      DivModUnique(x + t, size, q + 1, 0);
      DivModUnique(size, size, 1, 0);
    } else {
      DivModUnique(x + t, size, q, o + t);
      DivModUnique(o + t, size, 0, o + t);
    }
  }

  /** A run that does not cross the end of the buffer extends the cycle. */
  lemma CopyRun(data: Bytes, start: nat, n: nat, t: nat)
    requires data != [] && Wrap(start + n, |data|) + t <= |data|
    ensures var o := Wrap(start + n, |data|);
            && Cycle(data, start, n) + data[o..o + t] == Cycle(data, start, n + t)
            && Wrap(o + t, |data|) == Wrap(start + n + t, |data|)
  {
    hide Wrap;
    var o, size := Wrap(start + n, |data|), |data|;
    var l, r := Cycle(data, start, n) + data[o..o + t], Cycle(data, start, n + t);
    forall k | 0 <= k < n + t ensures l[k] == r[k] {
      if k >= n {
        WrapShift(start + n, k - n, size);
        assert start + n + (k - n) == start + k;
      }
    }
    WrapShift(start + n, t, size);
  }
}
