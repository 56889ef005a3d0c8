/**
 * The RC4 stream cipher used by the standard security handler: a key
 * schedule that permutes a 256-entry state table, and a keystream
 * generator that keeps permuting it one swap per output byte.
 */
module Rc4 {
  import opened Common

  /** `uint8_t`, as an eight-bit vector so that the exclusive-or is native. */
  type octet = bv8

  /** Exclusive-or with the same byte twice gives back the original byte. */
  lemma XorTwice(a: octet, b: octet)
    ensures (a ^ b) ^ b == a
  {
  }

  /** The table the key schedule starts from: entry k holds k. */
  function Identity(): (r: seq<byte>)
    ensures |r| == 256 && forall k :: 0 <= k < 256 ==> r[k] == k
  {
    seq(256, k requires 0 <= k < 256 => k)
  }

  /** A state table: the values 0 to 255, each exactly once. */
  predicate IsPermutation(s: seq<byte>)
  {
    |s| == 256 && multiset(s) == multiset(Identity())
  }

  /** The table with cells `a` and `b` exchanged. */
  function Swapped(s: seq<byte>, a: nat, b: nat): (r: seq<byte>)
    requires a < |s| && b < |s|
    ensures |r| == |s| && r[a] == s[b] && r[b] == s[a]
    ensures forall k :: 0 <= k < |s| && k != a && k != b ==> r[k] == s[k]
  {
    if a == b then s else s[a := s[b]][b := s[a]]
  }

  /** Exchanging two cells keeps the multiset of values. */
  lemma SwappedPermutes(s: seq<byte>, a: nat, b: nat)
    requires a < |s| && b < |s|
    ensures multiset(Swapped(s, a, b)) == multiset(s)
  {
  }

  /** Rounds of the key schedule, one per table cell. */
  const Rounds: nat := 256

  /** Table and `j` after the first `n` rounds of the key schedule. */
  function KeyScheduleSteps(key: seq<byte>, n: nat): (st: (seq<byte>, nat))
    requires |key| > 0 && n <= 256
    ensures |st.0| == 256 && st.1 < 256
  {
    if n == 0 then (Identity(), 0)
    else
      var p := KeyScheduleSteps(key, n - 1);
      var j := (p.1 + p.0[n - 1] + key[(n - 1) % |key|]) % 256;
      (Swapped(p.0, n - 1, j), j)
  }

  /** Every round of the key schedule leaves the table a permutation. */
  lemma {:induction false} KeySchedulePermutes(key: seq<byte>, n: nat)
    requires |key| > 0 && n <= 256
    ensures IsPermutation(KeyScheduleSteps(key, n).0)
  {
    if n > 0 {
      KeySchedulePermutes(key, n - 1);
      var p := KeyScheduleSteps(key, n - 1);
      SwappedPermutes(p.0, n - 1, (p.1 + p.0[n - 1] + key[(n - 1) % |key|]) % 256);
    }
  }

  /** One more round of the key schedule. */
  lemma KeyScheduleNext(key: seq<byte>, n: nat, s: seq<byte>, j: nat, j': nat)
    requires |key| > 0 && n < 256 && KeyScheduleSteps(key, n) == (s, j)
    requires j' == (j + s[n] + key[n % |key|]) % 256
    ensures KeyScheduleSteps(key, n + 1) == (Swapped(s, n, j'), j')
  {
  }

  /** The generator's state: the table and the two indices. */
  datatype Rc4State = Rc4State(s: seq<byte>, i: nat, j: nat)

  /** A table of 256 cells and two indices below 256. */
  predicate WellFormed(st: Rc4State)
  {
    |st.s| == 256 && st.i < 256 && st.j < 256
  }

  /** The state right after the key schedule: both indices are 0. */
  function Initial(key: seq<byte>): (st: Rc4State)
    requires |key| > 0
    ensures WellFormed(st) && IsPermutation(st.s) && st.i == 0 && st.j == 0
  {
    KeySchedulePermutes(key, Rounds);
    Rc4State(KeyScheduleSteps(key, Rounds).0, 0, 0)
  }

  /** One keystream step: the next state and the keystream byte. */
  function Step(st: Rc4State): (r: (Rc4State, byte))
    requires WellFormed(st)
    ensures WellFormed(r.0) && multiset(r.0.s) == multiset(st.s)
    ensures r.0.i == (st.i + 1) % 256
  {
    var i := (st.i + 1) % 256;
    var j := (st.j + st.s[i]) % 256;
    var s := Swapped(st.s, i, j);
    SwappedPermutes(st.s, i, j);
    (Rc4State(s, i, j), s[(s[i] as int + s[j]) % 256])
  }

  /** One step from `st` moves the indices to `i` and `j` and swaps their cells. */
  lemma StepFrom(st: Rc4State, i: nat, j: nat)
    requires WellFormed(st) && i == (st.i + 1) % 256 && j == (st.j + st.s[i]) % 256
    ensures var s := Swapped(st.s, i, j);
      Step(st) == (Rc4State(s, i, j), s[(s[i] as int + s[j]) % 256])
  {
  }

  /** Each byte of `data` combined with the successive keystream bytes. */
  function Crypt(st: Rc4State, data: seq<octet>): (r: seq<octet>)
    requires WellFormed(st)
    ensures |r| == |data|
    decreases |data|
  {
    if data == [] then []
    else
      var p := Step(st);
      [data[0] ^ p.1 as octet] + Crypt(p.0, data[1..])
  }

  /** The first `n` keystream bytes from `st`. */
  function Keystream(st: Rc4State, n: nat): (ks: seq<byte>)
    requires WellFormed(st)
    ensures |ks| == n
    decreases n
  {
    if n == 0 then []
    else
      var p := Step(st);
      [p.1] + Keystream(p.0, n - 1)
  }

  /** Each byte combined with the key byte at the same place. */
  function XorWith(data: seq<octet>, ks: seq<byte>): (r: seq<octet>)
    requires |ks| == |data|
    ensures |r| == |data|
  {
    seq(|data|, i requires 0 <= i < |data| => data[i] ^ ks[i] as octet)
  }

  /** Combining with the same key bytes twice gives back the data. */
  lemma XorWithTwice(data: seq<octet>, ks: seq<byte>)
    requires |ks| == |data|
    ensures XorWith(XorWith(data, ks), ks) == data
  {
    forall i | 0 <= i < |data|
      ensures XorWith(XorWith(data, ks), ks)[i] == data[i]
    {
      XorTwice(data[i], ks[i] as octet);
    }
  }

  /** Combining with a key that starts with `k`: the first byte with `k`, the rest with the rest. */
  lemma XorWithCons(data: seq<octet>, k: byte, rest: seq<byte>)
    requires data != [] && |rest| == |data| - 1
    ensures XorWith(data, [k] + rest) == [data[0] ^ k as octet] + XorWith(data[1..], rest)
  {
  }

  /** Encrypting is combining with the keystream. */
  lemma {:induction false} CryptIsXor(st: Rc4State, data: seq<octet>)
    requires WellFormed(st)
    ensures Crypt(st, data) == XorWith(data, Keystream(st, |data|))
    decreases |data|
  {
    if data != [] {
      var p := Step(st);
      CryptIsXor(p.0, data[1..]);
      XorWithCons(data, p.1, Keystream(p.0, |data| - 1));
    }
  }

  /** Encrypting from the same state twice gives back the data. */
  lemma CryptTwice(st: Rc4State, data: seq<octet>)
    requires WellFormed(st)
    ensures Crypt(st, Crypt(st, data)) == data
  {
    var ks := Keystream(st, |data|);
    CryptIsXor(st, data);
    CryptIsXor(st, Crypt(st, data));
    XorWithTwice(data, ks);
  }

  /** Two ciphers reset with the same key undo each other. */
  lemma SameKeyRestores(key: seq<byte>, data: seq<octet>)
    requires |key| > 0
    ensures Crypt(Initial(key), Crypt(Initial(key), data)) == data
  {
    CryptTwice(Initial(key), data);
  }

  class RC4 {
    /** `mBuffer`, the state table. */
    const buffer: array<byte>
    var i: int
    var j: int

    ghost predicate Valid()
      reads this
    {
      buffer.Length == 256 && 0 <= i < 256 && 0 <= j < 256
    }

    function State(): (st: Rc4State)
      reads this, buffer
      requires Valid()
      ensures |st.s| == 256 && st.i == i && st.j == j
    {
      Rc4State(buffer[..], i, j)
    }

    /** A cipher with no key yet; its table and indices are zero. */
    constructor ()
      ensures Valid() && fresh(buffer)
    {
      buffer := new byte[256](_ => 0);
      i, j := 0, 0;
    }

    /** A cipher reset with the bytes of `key`. */
    constructor FromKey(key: seq<byte>)
      requires |key| > 0
      ensures Valid() && fresh(buffer) && State() == Initial(key)
    {
      buffer := new byte[256](_ => 0);
      i, j := 0, 0;
      new;
      Reset(key);
    }

    /** Exchanges two cells of the table; the others keep their values. */
    method Swap(a: int, b: int)
      requires buffer.Length == 256 && 0 <= a < 256 && 0 <= b < 256
      modifies buffer
      ensures buffer[..] == Swapped(old(buffer[..]), a, b)
    {
      var tmp := buffer[a];
      buffer[a] := buffer[b];
      buffer[b] := tmp;
      assert buffer[..] == Swapped(old(buffer[..]), a, b);
    }

    /** The key schedule over the first `length` bytes of `key`. */
    method Init(key: array<byte>, length: nat)
      requires Valid() && 0 < length <= key.Length && key != buffer
      modifies this, buffer
      ensures Valid() && State() == Initial(key[..length])
    {
      FillIdentity();
      ScheduleKey(key, length);
      i, j := 0, 0;
    }

    /** Init's first loop: cell `m` receives `m`. */
    method FillIdentity()
      requires buffer.Length == 256
      modifies buffer
      ensures buffer[..] == Identity()
    {
      var m := 0;
      while m < 256
        invariant 0 <= m <= 256
        invariant forall n :: 0 <= n < m ==> buffer[n] == n
      {
        buffer[m] := m;
        m := m + 1;
      }
    }

    /** Init's second loop: the 256 rounds of the key schedule, run on the fields. */
    method ScheduleKey(key: array<byte>, length: nat)
      requires buffer.Length == 256 && buffer[..] == Identity()
      requires 0 < length <= key.Length && key != buffer
      modifies this, buffer
      ensures i == Rounds && (buffer[..], j) == KeyScheduleSteps(key[..length], i)
    {
      ghost var k := key[..length];
      j := 0;
      i := 0;
      while i < 256
        invariant 0 <= i <= 256 && 0 <= j < 256
        invariant (buffer[..], j) == KeyScheduleSteps(k, i)
      {
        KeyRound(key, length, k);
      }
    }

    /** One round of the key schedule: `j` moves on and cells `i` and `j` are exchanged. */
    method KeyRound(key: array<byte>, length: nat, ghost k: seq<byte>)
      requires buffer.Length == 256 && 0 <= i < 256 && 0 <= j < 256
      requires 0 < length <= key.Length && key != buffer && k == key[..length]
      requires (buffer[..], j) == KeyScheduleSteps(k, i)
      modifies this, buffer
      ensures i == old(i) + 1 && 0 <= j < 256
      ensures (buffer[..], j) == KeyScheduleSteps(k, i)
    {
      ghost var s0 := buffer[..];
      var kb := key[i % length];
      assert kb == k[i % |k|] && buffer[i] == s0[i];
      var next := (j + buffer[i] + kb) % 256;
      KeyScheduleNext(k, i, s0, j, next);
      j := next;
      Swap(i, j);
      i := i + 1;
    }

    /** `Reset(const ByteList&)`: the key is copied to a buffer and scheduled. */
    method Reset(key: seq<byte>)
      requires Valid() && |key| > 0
      modifies this, buffer
      ensures Valid() && State() == Initial(key)
    {
      var copy := new byte[|key|];
      var m := 0;
      while m < |key|
        modifies copy
        invariant 0 <= m <= |key|
        invariant copy[..m] == key[..m]
      {
        copy[m] := key[m];
        m := m + 1;
      }
      assert copy[..|key|] == key;
      Init(copy, |key|);
    }

    /** `Reset(const uint8_t*, size_t)`: schedules the first `length` bytes. */
    method ResetFromBuffer(key: array<byte>, length: nat)
      requires Valid() && 0 < length <= key.Length && key != buffer
      modifies this, buffer
      ensures Valid() && State() == Initial(key[..length])
    {
      Init(key, length);
    }

    /** Advances the generator by one step and returns its keystream byte. */
    method GetNextEncodingByte() returns (r: byte)
      requires Valid()
      modifies this, buffer
      ensures Valid() && (State(), r) == Step(old(State()))
    {
      ghost var st0 := State();
      var ni := (i + 1) % 256;
      var nj := (j + buffer[ni]) % 256;
      StepFrom(st0, ni, nj);
      Swap(ni, nj);
      i, j := ni, nj;
      var index := (buffer[i] as int + buffer[j]) % 256;
      r := buffer[index];
    }

    /** The byte combined with the next keystream byte. */
    method DecodeNextByte(b: octet) returns (r: octet)
      requires Valid()
      modifies this, buffer
      ensures Valid() && State() == Step(old(State())).0
      ensures r == b ^ Step(old(State())).1 as octet
    {
      var k := GetNextEncodingByte();
      r := b ^ k as octet;
    }
  }
}
