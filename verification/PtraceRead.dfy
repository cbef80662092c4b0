/** Reading another process's memory a machine word at a time. */
module PtraceRead {
  import opened Machine

  /** The other process: its bytes, and which aligned words can be peeked. */
  datatype Tracee = Tracee(w: Width, mem: nat -> Byte, readable: nat -> bool)

  function Misalignment(w: Width, a: nat): (r: nat)
    ensures r < w.Size() && r <= a
  {
    match w case W32 => a % 4 case W64 => a % 8
  }

  /** The byte lies in a word that can be peeked. */
  predicate Peekable(t: Tracee, a: nat) { t.readable(a - Misalignment(t.w, a)) }

  predicate AllPeekable(t: Tracee, addr: nat, n: nat) { forall a :: addr <= a < addr + n ==> Peekable(t, a) }

  /** The bytes from addr on, up to the first that lies in an unreadable word. */
  predicate LongestPrefix(t: Tracee, addr: nat, bytes: nat, n: nat) {
    && n <= bytes
    && AllPeekable(t, addr, n)
    && (n < bytes ==> !Peekable(t, addr + n))
  }

  /** Addresses of one word share its start. */
  lemma SameWord(w: Width, a: nat, k: nat)
    requires Misalignment(w, a) + k < w.Size()
    ensures Misalignment(w, a + k) == Misalignment(w, a) + k
  {
  }

  lemma NextWord(w: Width, a: nat, k: nat)
    requires Misalignment(w, a) + k == w.Size()
    ensures Misalignment(w, a + k) == 0
  {
  }

  /** Peeks the word of addr and copies n bytes of it, from addr on, to dst[at..]. */
  method CopyFromWord(t: Tracee, addr: nat, dst: array<Byte>, at: nat, n: nat) returns (ok: bool)
    requires at + n <= dst.Length && Misalignment(t.w, addr) + n <= t.w.Size()
    modifies dst
    ensures n > 0 ==> ok == Peekable(t, addr)
    ensures ok ==> AllPeekable(t, addr, n)
    ensures ok ==> forall k :: at <= k < at + n ==> dst[k] == t.mem(addr + (k - at))
    ensures ok ==> forall i :: (0 <= i < at || at + n <= i < dst.Length) ==> dst[i] == old(dst[i])
    ensures !ok ==> dst[..] == old(dst[..])
  {
    hide Misalignment;
    var base := addr - Misalignment(t.w, addr);
    ok := t.readable(base);
    if ok {
      var word := seq(t.w.Size(), i requires 0 <= i => t.mem(base + i));
      forall i | 0 <= i < n {
        dst[at + i] := word[addr - base + i];
      }
      forall a | addr <= a < addr + n ensures Peekable(t, a) {
        SameWord(t.w, addr, a - addr);
      }
    }
  }

  /** The count returned is that of the longest readable prefix, those bytes are the
      process's, and nothing behind them is written; a range that passes the end of
      the address space is refused. Everything is read exactly when every word that
      the range touches is readable and the range does not overflow. */
  method Read(t: Tracee, addr: nat, dst: array<Byte>, bytes: nat) returns (n: nat)
    requires bytes <= dst.Length
    modifies dst
    ensures addr + bytes < TWO64 ==> LongestPrefix(t, addr, bytes, n)
    ensures addr + bytes >= TWO64 ==> n == 0
    ensures addr < TWO64 ==> (n == bytes <==> addr + bytes < TWO64 && AllPeekable(t, addr, bytes))
    ensures forall i :: 0 <= i < n ==> dst[i] == t.mem(addr + i)
    ensures n <= bytes && forall i :: n <= i < dst.Length ==> dst[i] == old(dst[i])
  {
    hide Misalignment;
    hide Peekable;
    n := 0;
    if addr + bytes >= TWO64 {
      return;
    }
    var align := Misalignment(t.w, addr);
    if align != 0 {
      var copy := if t.w.Size() - align <= bytes then t.w.Size() - align else bytes;
      var ok := CopyFromWord(t, addr, dst, 0, copy);
      if !ok {
        return 0;
      }
      n := copy;
      if n < bytes {
        NextWord(t.w, addr, n);
      }
    }
    while n + t.w.Size() <= bytes
      invariant n <= bytes
      invariant n < bytes ==> Misalignment(t.w, addr + n) == 0
      invariant AllPeekable(t, addr, n)
      invariant forall i :: 0 <= i < n ==> dst[i] == t.mem(addr + i)
      invariant forall i :: n <= i < dst.Length ==> dst[i] == old(dst[i])
    {
      var ok := CopyFromWord(t, addr + n, dst, n, t.w.Size());
      if !ok {
        return;
      }
      NextWord(t.w, addr + n, t.w.Size());
      n := n + t.w.Size();
    }
    if n < bytes {
      var ok := CopyFromWord(t, addr + n, dst, n, bytes - n);
      if !ok {
        return;
      }
      n := bytes;
    }
  }
}
