/**
 Counter mode (crypto/ctr.h) and the XOR helpers under it (crypto/algapi.h).

 The message is processed in place or from one buffer to another, in whatever pieces the
 scatter-gather walker offers. The block cipher is a function parameter. Counters are
 big-endian byte strings, as in section 6.5 and appendix B.1 of NIST SP 800-38A.
 */
module CtrMode {
  import opened Bits

  function XorByte(a: Byte, b: Byte): Byte {
    Pow2Values();
    XorBound(a, b, 8);
    Xor(a, b)
  }

  // ---------------------------------------------------------------- counters

  /** The value of a big-endian byte string. */
  function Value(c: seq<Byte>): nat {
    if c == [] then 0 else Value(c[..|c| - 1]) * 256 + c[|c| - 1]
  }

  /** `crypto_inc`: add one, carrying from the last byte towards the first. */
  function Increment(c: seq<Byte>): (r: seq<Byte>)
    ensures |r| == |c|
  {
    if c == [] then []
    else if c[|c| - 1] < 255 then c[..|c| - 1] + [c[|c| - 1] + 1]
    else Increment(c[..|c| - 1]) + [0]
  }

  /** The counter block after `i` increments. */
  function Counter(iv: seq<Byte>, i: nat): (r: seq<Byte>)
    ensures |r| == |iv|
  {
    if i == 0 then iv else Increment(Counter(iv, i - 1))
  }

  /** The first byte is the most significant one. */
  lemma {:induction false} FirstByteCounts(first: Byte, rest: seq<Byte>)
    ensures Value([first] + rest) == first * Pow256(|rest|) + Value(rest)
  {
    var c := [first] + rest;
    if rest == [] {
      assert c[..0] == [];
    } else {
      var last := |rest| - 1;
      assert c[..|c| - 1] == [first] + rest[..last];
      FirstByteCounts(first, rest[..last]);
      MulAssoc(256, first, Pow256(last));
    }
  }

  lemma {:induction false} ValueBound(c: seq<Byte>)
    ensures Value(c) < Pow256(|c|)
  {
    if c != [] { ValueBound(c[..|c| - 1]); }
  }

  lemma {:induction false} IncrementValue(c: seq<Byte>)
    ensures Value(Increment(c)) == (if Value(c) + 1 == Pow256(|c|) then 0 else Value(c) + 1)
  {
    if c == [] {
    } else {
      var p := c[..|c| - 1];
      var r := Increment(c);
      ValueBound(p);
      if c[|c| - 1] < 255 {
        assert r[..|r| - 1] == p;
      } else {
        IncrementValue(p);
        assert r[..|r| - 1] == Increment(p);
      }
    }
  }

  /** The counter blocks run through the initial value plus i, modulo 2^(8 * length). */
  lemma {:induction false} CounterValue(iv: seq<Byte>, i: nat)
    ensures Value(Counter(iv, i)) == (Value(iv) + i) % Pow256(|iv|)
  {
    var p := Pow256(|iv|);
    if i == 0 {
      ValueBound(iv);
      ModUnique(Value(iv), p, 0, Value(iv));
    } else {
      CounterValue(iv, i - 1);
      ValueBound(Counter(iv, i - 1));
      IncrementValue(Counter(iv, i - 1));
      SuccessorMod(Value(iv) + i - 1, p);
    }
  }

  lemma SuccessorMod(x: nat, p: nat)
    requires p > 0
    ensures (x + 1) % p == if x % p + 1 == p then 0 else x % p + 1
  {
    var q, r := x / p, x % p;
    assert x == q * p + r;
    if r + 1 == p {
      MulAdd(q, 1, p);
      ModUnique(x + 1, p, q + 1, 0);
    } else {
      ModUnique(x + 1, p, q, r + 1);
    }
  }

  lemma SameRemainder(x: nat, d: nat, p: nat)
    requires p > 0 && x % p == (x + d) % p
    ensures d % p == 0
  {
    var q := (x + d) / p - x / p;
    assert x + d == ((x + d) / p) * p + (x + d) % p && x == (x / p) * p + x % p;
    MulAdd((x + d) / p, -(x / p), p);
    ModUnique(d, p, q, 0);
  }

  /** No counter block repeats before the counter space is used up. */
  lemma CountersDistinct(iv: seq<Byte>, i: nat, j: nat)
    requires i < j && j - i < Pow256(|iv|)
    ensures Counter(iv, i) != Counter(iv, j)
  {
    if Counter(iv, i) == Counter(iv, j) {
      CounterValue(iv, i);
      CounterValue(iv, j);
      SameRemainder(Value(iv) + i, j - i, Pow256(|iv|));
      ModUnique(j - i, Pow256(|iv|), 0, j - i);
      assert false;
    }
  }

  // ---------------------------------------------------------------- the mode as a function

  type Cipher = seq<Byte> -> seq<Byte>

  /** The cipher fills at least one block. */
  ghost predicate FillsBlock(encrypt: Cipher, blocksize: nat) {
    forall c: seq<Byte> :: |encrypt(c)| >= blocksize
  }

  /** Byte `j` of the key stream E(iv), E(iv + 1), ... */
  function KeyByte(encrypt: Cipher, iv: seq<Byte>, blocksize: nat, j: nat): Byte
    requires blocksize > 0
  {
    var block := encrypt(Counter(iv, j / blocksize));
    if j % blocksize < |block| then block[j % blocksize] else 0
  }

  /** Counter mode: the message XOR the key stream. */
  function Ctr(encrypt: Cipher, iv: seq<Byte>, blocksize: nat, message: seq<Byte>): (r: seq<Byte>)
    requires blocksize > 0
    ensures |r| == |message|
  {
    seq(|message|, j requires 0 <= j < |message| => XorByte(message[j], KeyByte(encrypt, iv, blocksize, j)))
  }

  /** Decryption is encryption: applying the mode twice from the same counter restores the message. */
  lemma CtrTwice(encrypt: Cipher, iv: seq<Byte>, blocksize: nat, message: seq<Byte>)
    requires blocksize > 0
    ensures Ctr(encrypt, iv, blocksize, Ctr(encrypt, iv, blocksize, message)) == message
  {
    var once := Ctr(encrypt, iv, blocksize, message);
    forall j | 0 <= j < |message| ensures XorByte(once[j], KeyByte(encrypt, iv, blocksize, j)) == message[j] {
      XorTwice(message[j], KeyByte(encrypt, iv, blocksize, j));
    }
  }

  // ---------------------------------------------------------------- the mode byte by byte

  /** `c` is the counter block `k` places after the initial one. */
  predicate IsCounter(iv: seq<Byte>, c: seq<Byte>, k: nat) {
    |c| == |iv| && Value(c) == (Value(iv) + k) % Pow256(|iv|)
  }

  /**
   Byte `j` of the result is byte `j` of the message XOR byte `j % blocksize` of the encrypted
   block number iv + j / blocksize, for the first `n` bytes.
   */
  ghost predicate CounterMode(encrypt: Cipher, iv: seq<Byte>, blocksize: nat,
                              message: seq<Byte>, now: seq<Byte>, n: nat)
    requires blocksize > 0 && FillsBlock(encrypt, blocksize)
  {
    && n <= |message| == |now|
    && forall j :: 0 <= j < n ==>
         forall c: seq<Byte> :: IsCounter(iv, c, j / blocksize) ==>
           now[j] == Xor(message[j], encrypt(c)[j % blocksize])
  }

  /** A counter block is determined by its length and its value. */
  lemma {:induction false} ValueUnique(c: seq<Byte>, d: seq<Byte>)
    requires |c| == |d| && Value(c) == Value(d)
    ensures c == d
  {
    if c != [] {
      var last := |c| - 1;
      assert c[last] == d[last] && Value(c[..last]) == Value(d[..last]);
      ValueUnique(c[..last], d[..last]);
      assert c == c[..last] + [c[last]] && d == d[..last] + [d[last]];
    }
  }

  /** Byte `j` of the key stream comes from the block iv + j / blocksize, at j % blocksize. */
  lemma KeyStreamByte(encrypt: Cipher, iv: seq<Byte>, blocksize: nat, j: nat, c: seq<Byte>)
    requires blocksize > 0 && FillsBlock(encrypt, blocksize) && IsCounter(iv, c, j / blocksize)
    ensures KeyByte(encrypt, iv, blocksize, j) == encrypt(c)[j % blocksize]
  {
    CounterValue(iv, j / blocksize);
    ValueUnique(c, Counter(iv, j / blocksize));
  }

  lemma EncryptedIsCounterMode(encrypt: Cipher, iv: seq<Byte>, blocksize: nat,
                               message: seq<Byte>, before: seq<Byte>, now: seq<Byte>, n: nat)
    requires blocksize > 0 && FillsBlock(encrypt, blocksize)
    requires EncryptedTo(encrypt, iv, blocksize, message, before, now, n)
    ensures CounterMode(encrypt, iv, blocksize, message, now, n)
  {
    forall j, c: seq<Byte> | 0 <= j < n && IsCounter(iv, c, j / blocksize)
      ensures now[j] == Xor(message[j], encrypt(c)[j % blocksize])
    {
      KeyStreamByte(encrypt, iv, blocksize, j, c);
    }
  }

  // ---------------------------------------------------------------- crypto_xor_cpy

  function XorBytes(a: seq<Byte>, b: seq<Byte>): (r: seq<Byte>)
    requires |a| == |b|
    ensures |r| == |a| && forall j :: 0 <= j < |r| ==> r[j] == XorByte(a[j], b[j])
  {
    if a == [] then [] else [XorByte(a[0], b[0])] + XorBytes(a[1..], b[1..])
  }

  /** The bytes of memory in the order of significance, lowest first; the same step leads back. */
  function InOrder(bigEndian: bool, m: seq<Byte>): (b: seq<Byte>)
    ensures |b| == |m|
  {
    if bigEndian then Reversed(m) else m
  }

  /** A machine word read from memory, and written to it. */
  function LoadWord(bigEndian: bool, m: seq<Byte>): nat {
    Word(InOrder(bigEndian, m))
  }

  function StoreWord(bigEndian: bool, w: nat, n: nat): (m: seq<Byte>)
    ensures |m| == n
  {
    InOrder(bigEndian, BytesOf(w, n))
  }

  function BytesOf(w: nat, n: nat): (m: seq<Byte>)
    ensures |m| == n
  {
    if n == 0 then [] else [w % 256] + BytesOf(w / 256, n - 1)
  }

  lemma {:induction false} BytesOfWord(m: seq<Byte>)
    ensures BytesOf(Word(m), |m|) == m
  {
    if m != [] {
      var low: Byte, rest := m[0], Word(m[1..]);
      BytesOfWord(m[1..]);
      ModUnique(low + 256 * rest, 256, rest, low);
      assert m == [low] + m[1..];
    }
  }

  lemma StoreLoaded(bigEndian: bool, m: seq<Byte>)
    ensures StoreWord(bigEndian, LoadWord(bigEndian, m), |m|) == m
  {
    BytesOfWord(InOrder(bigEndian, m));
    assert Reversed(Reversed(m)) == m;
  }

  lemma {:induction false} XorOfWords(a: seq<Byte>, b: seq<Byte>)
    requires |a| == |b|
    ensures Xor(Word(a), Word(b)) == Word(XorBytes(a, b))
  {
    if a != [] {
      XorOfWords(a[1..], b[1..]);
      var c := XorBytes(a, b);
      assert c[1..] == XorBytes(a[1..], b[1..]);
      XorByteValue(Word(a), a[0], Word(a[1..]), Word(b), b[0], Word(b[1..]), c[0], Word(c[1..]));
    }
  }

  /** XOR on whole words is XOR on their bytes, in either byte order. */
  lemma WordXorIsByteXor(bigEndian: bool, a: seq<Byte>, b: seq<Byte>)
    requires |a| == |b|
    ensures Xor(LoadWord(bigEndian, a), LoadWord(bigEndian, b)) == LoadWord(bigEndian, XorBytes(a, b))
  {
    var a', b' := InOrder(bigEndian, a), InOrder(bigEndian, b);
    XorOfWords(a', b');
    assert XorBytes(a', b') == InOrder(bigEndian, XorBytes(a, b));
  }

  /** The bytes of `*s1 ^ *s2`, one word. */
  method XorWordBytes(a: seq<Byte>, b: seq<Byte>, bigEndian: bool) returns (bytes: seq<Byte>)
    requires |a| == |b|
    ensures bytes == XorBytes(a, b)
  {
    var word := Xor(LoadWord(bigEndian, a), LoadWord(bigEndian, b));
    WordXorIsByteXor(bigEndian, a, b);
    StoreLoaded(bigEndian, XorBytes(a, b));
    bytes := StoreWord(bigEndian, word, |a|);
  }

  /** `*d++ = *s1++ ^ *s2++` for one word at `at`. */
  method XorOneWord(dst: array<Byte>, src: array<Byte>, at: nat, key: seq<Byte>, bigEndian: bool)
    requires at + |key| <= dst.Length == src.Length
    modifies dst
    ensures forall j :: 0 <= j < dst.Length ==>
              dst[j] == if at <= j < at + |key| then XorByte(old(src[j]), key[j - at]) else old(dst[j])
  {
    var n := |key|;
    ghost var before := src[at..at + n];
    assert forall j :: 0 <= j < n ==> before[j] == old(src[at + j]);
    var bytes := XorWordBytes(src[at..at + n], key, bigEndian);
    StoreBytes(dst, at, bytes);
  }

  method StoreBytes(dst: array<Byte>, at: nat, bytes: seq<Byte>)
    requires at + |bytes| <= dst.Length
    modifies dst
    ensures forall j :: 0 <= j < dst.Length ==>
              dst[j] == if at <= j < at + |bytes| then bytes[j - at] else old(dst[j])
  {
    for i := 0 to |bytes|
      invariant forall j :: 0 <= j < dst.Length ==>
                  dst[j] == if at <= j < at + i then bytes[j - at] else old(dst[j])
    {
      dst[at + i] := bytes[i];
    }
  }

  /**
   `crypto_xor_cpy` from `at` on: word by word when the size is a compile-time multiple of
   the word size, byte by byte otherwise. `dst` and `src` may be the same buffer.
   */
  method XorCopy(dst: array<Byte>, src: array<Byte>, at: nat, key: seq<Byte>, size: nat,
                 constant: bool, wordSize: nat, bigEndian: bool)
    requires at + size <= dst.Length == src.Length && size <= |key| && wordSize > 0
    modifies dst
    ensures forall j :: 0 <= j < dst.Length ==>
              dst[j] == if at <= j < at + size then XorByte(old(src[j]), key[j - at]) else old(dst[j])
  {
    var i := 0;
    if constant && size % wordSize == 0 {
      while i < size
        invariant 0 <= i <= size && i % wordSize == 0
        invariant forall j :: 0 <= j < dst.Length ==>
                    dst[j] == if at <= j < at + i then XorByte(old(src[j]), key[j - at]) else old(dst[j])
      {
        WholeWordsLeft(i, size, wordSize);
        XorOneWord(dst, src, at + i, key[i..i + wordSize], bigEndian);
        i := i + wordSize;
      }
    } else {
      while i < size
        invariant 0 <= i <= size
        invariant forall j :: 0 <= j < dst.Length ==>
                    dst[j] == if at <= j < at + i then XorByte(old(src[j]), key[j - at]) else old(dst[j])
      {
        dst[at + i] := XorByte(src[at + i], key[i]);
        i := i + 1;
      }
    }
  }

  lemma WholeWordsLeft(i: nat, size: nat, w: nat)
    requires w > 0 && i < size && i % w == 0 && size % w == 0
    ensures i + w <= size && (i + w) % w == 0
  {
    var q, k := i / w, size / w;
    assert i == q * w && size == k * w;
    MulStrict(k, q, w);
    MulStrict(q + 1, k, w);
    MulAdd(q, 1, w);
    ModUnique(i + w, w, q + 1, 0);
  }

  // ---------------------------------------------------------------- crypto_ctr_encrypt_walk

  datatype Status = Success | InvalidBlockSize | WalkError

  /** What `skcipher_walk_virt` and `skcipher_walk_done` answer: the next piece, or an error. */
  datatype Answer = Piece(nbytes: nat) | Failed

  /** The bytes of a piece that are processed now: all of the last piece, whole blocks of any other. */
  function Whole(nbytes: nat, total: nat, blocksize: nat): nat
    requires blocksize > 0
  {
    if nbytes < total then nbytes / blocksize * blocksize else nbytes
  }

  /**
   The answers a walker may give for a message with `total` bytes to come: any pieces, at least
   one block each while more data follows, until the message or the walker ends.
   */
  predicate Legal(answers: seq<Answer>, total: nat, blocksize: nat)
    requires blocksize > 0
    decreases |answers|
  {
    if answers == [] then total == 0
    else
      match answers[0]
      case Failed => true
      case Piece(n) =>
        && 1 <= n <= total && (n < total ==> n >= blocksize)
        && Whole(n, total, blocksize) <= total
        && Legal(answers[1..], total - Whole(n, total, blocksize), blocksize)
  }

  /** The bytes of the pieces offered before the walker fails or ends. */
  function Processed(answers: seq<Answer>, total: nat, blocksize: nat): nat
    requires blocksize > 0
    decreases |answers|
  {
    if answers == [] || answers[0] == Failed then 0
    else
      var size := Whole(answers[0].nbytes, total, blocksize);
      size + Processed(answers[1..], if size <= total then total - size else 0, blocksize)
  }

  /** The walker fails at some point before the message ends. */
  predicate Fails(answers: seq<Answer>) {
    exists k :: 0 <= k < |answers| && answers[k] == Failed
  }

  /** One answer: `walk.nbytes` is zero on an error and at the end. */
  method NextPiece(answers: seq<Answer>) returns (status: Status, nbytes: nat)
    ensures status == if answers != [] && answers[0] == Failed then WalkError else Success
    ensures nbytes == if answers != [] && answers[0].Piece? then answers[0].nbytes else 0
  {
    if answers == [] { return Success, 0; }
    match answers[0] {
      case Failed => return WalkError, 0;
      case Piece(n) => return Success, n;
    }
  }

  /** The buffer `now`: its first `n` bytes are encrypted message, the rest are as `before`. */
  ghost predicate EncryptedTo(encrypt: Cipher, iv: seq<Byte>, blocksize: nat,
                              message: seq<Byte>, before: seq<Byte>, now: seq<Byte>, n: nat)
    requires blocksize > 0
  {
    && n <= |message| == |before| == |now|
    && forall j :: 0 <= j < |now| ==>
         now[j] == if j < n then XorByte(message[j], KeyByte(encrypt, iv, blocksize, j)) else before[j]
  }

  /** One turn of the inner loop: encrypt the counter, XOR one block or what is left of it. */
  method EncryptBlock(encrypt: Cipher, ghost iv: seq<Byte>, counter: seq<Byte>, blocksize: nat,
                      dst: array<Byte>, src: array<Byte>, at: nat, bsize: nat)
    requires blocksize > 0 && FillsBlock(encrypt, blocksize)
    requires bsize <= blocksize && at + bsize <= dst.Length == src.Length
    requires at % blocksize == 0 && counter == Counter(iv, at / blocksize)
    modifies dst
    ensures forall j :: 0 <= j < dst.Length ==>
              dst[j] == if at <= j < at + bsize then XorByte(old(src[j]), KeyByte(encrypt, iv, blocksize, j))
                        else old(dst[j])
  {
    var buf := encrypt(counter);
    forall j | at <= j < at + bsize ensures KeyByte(encrypt, iv, blocksize, j) == buf[j - at] {
      SameBlock(at, j, blocksize);
    }
    XorCopy(dst, src, at, buf, bsize, false, 1, false);
  }

  lemma SameBlock(at: nat, j: nat, b: nat)
    requires b > 0 && at % b == 0 && at <= j < at + b
    ensures j / b == at / b && j % b == j - at
  {
    ModUnique(j, b, at / b, j - at);
  }

  /** The position after one more block, or after the last partial one. */
  lemma BlockAdvances(at: nat, b: nat)
    requires b > 0 && at % b == 0
    ensures (at + b) % b == 0 && (at + b) / b == at / b + 1
  {
    MulAdd(at / b, 1, b);
    ModUnique(at + b, b, at / b + 1, 0);
  }

  /** Number of blocks, counting a last partial one. */
  function Blocks(n: nat, blocksize: nat): nat
    requires blocksize > 0
  {
    n / blocksize + if n % blocksize == 0 then 0 else 1
  }

  lemma LastPartialBlock(at: nat, k: nat, b: nat)
    requires b > 0 && at % b == 0 && 0 < k <= b
    ensures Blocks(at + k, b) == at / b + 1
  {
    if k == b { BlockAdvances(at, b); } else { ModUnique(at + k, b, at / b, k); }
  }

  /** One turn of the inner loop, with the counter moved on. */
  method EncryptAndCount(encrypt: Cipher, ghost iv: seq<Byte>, counter: seq<Byte>, blocksize: nat,
                         dst: array<Byte>, src: array<Byte>, at: nat, bsize: nat,
                         ghost message: seq<Byte>, ghost before: seq<Byte>)
    returns (counter': seq<Byte>)
    requires blocksize > 0 && FillsBlock(encrypt, blocksize)
    requires dst.Length == src.Length == |message| && 0 < bsize <= blocksize && at + bsize <= dst.Length
    requires at % blocksize == 0 && counter == Counter(iv, at / blocksize)
    requires EncryptedTo(encrypt, iv, blocksize, message, before, dst[..], at)
    requires forall j :: at <= j < src.Length ==> src[j] == message[j]
    modifies dst
    ensures EncryptedTo(encrypt, iv, blocksize, message, before, dst[..], at + bsize)
    ensures forall j :: at + bsize <= j < src.Length ==> src[j] == message[j]
    ensures counter' == Counter(iv, Blocks(at + bsize, blocksize))
    ensures bsize == blocksize ==>
              (at + bsize) % blocksize == 0 && Blocks(at + bsize, blocksize) == (at + bsize) / blocksize
  {
    EncryptBlock(encrypt, iv, counter, blocksize, dst, src, at, bsize);
    counter' := Increment(counter);
    LastPartialBlock(at, bsize, blocksize);
    BlockAdvances(at, blocksize);
  }

  /** The do-while loop over one piece: `nbytes` bytes from `at`, whole blocks unless they end the message. */
  method EncryptPiece(encrypt: Cipher, ghost iv: seq<Byte>, counter0: seq<Byte>, blocksize: nat,
                      dst: array<Byte>, src: array<Byte>, at: nat, nbytes0: nat,
                      ghost message: seq<Byte>, ghost before: seq<Byte>)
    returns (counter: seq<Byte>)
    requires blocksize > 0 && FillsBlock(encrypt, blocksize)
    requires dst.Length == src.Length == |message| && 0 < nbytes0 && at + nbytes0 <= dst.Length
    requires at % blocksize == 0 && counter0 == Counter(iv, at / blocksize)
    requires EncryptedTo(encrypt, iv, blocksize, message, before, dst[..], at)
    requires forall j :: at <= j < src.Length ==> src[j] == message[j]
    modifies dst
    ensures EncryptedTo(encrypt, iv, blocksize, message, before, dst[..], at + nbytes0)
    ensures forall j :: at + nbytes0 <= j < src.Length ==> src[j] == message[j]
    ensures counter == Counter(iv, Blocks(at + nbytes0, blocksize))
  {
    counter := counter0;
    var pos, nbytes := at, nbytes0;
    while true
      invariant 0 < nbytes && pos + nbytes == at + nbytes0 && pos % blocksize == 0
      invariant counter == Counter(iv, pos / blocksize)
      invariant EncryptedTo(encrypt, iv, blocksize, message, before, dst[..], pos)
      invariant forall j :: pos <= j < src.Length ==> src[j] == message[j]
      decreases nbytes
    {
      var bsize := if nbytes < blocksize then nbytes else blocksize;
      counter := EncryptAndCount(encrypt, iv, counter, blocksize, dst, src, pos, bsize, message, before);
      pos := pos + bsize;
      nbytes := nbytes - bsize;
      if nbytes <= 0 { break; }
    }
  }

  /**
   `crypto_ctr_encrypt_walk` with a walker that gives `answers`; `n` is how far it came. What it
   came to is encrypted, the rest untouched, and the counter has moved on once per block.
   */
  method CtrEncryptWalk(encrypt: Cipher, iv: seq<Byte>, blocksize: nat, dst: array<Byte>, src: array<Byte>,
                        answers: seq<Answer>)
    returns (status: Status, counter: seq<Byte>, ghost n: nat)
    requires FillsBlock(encrypt, blocksize) && dst.Length == src.Length
    requires blocksize > 0 ==> Legal(answers, src.Length, blocksize)
    modifies dst
    ensures status == InvalidBlockSize <==> !IsPowerOf2(blocksize)
    ensures status == InvalidBlockSize ==> dst[..] == old(dst[..]) && counter == iv
    ensures status != InvalidBlockSize ==>
              && (status == WalkError <==> Fails(answers))
              && n == Processed(answers, src.Length, blocksize) <= src.Length
              && CounterMode(encrypt, iv, blocksize, old(src[..]), dst[..], n)
              && (forall j :: n <= j < dst.Length ==> dst[j] == old(dst[j]))
              && IsCounter(iv, counter, (n + blocksize - 1) / blocksize)
    ensures status == Success ==> n == src.Length && dst[..] == Ctr(encrypt, iv, blocksize, old(src[..]))
  {
    n := 0;
    if !IsPowerOf2(blocksize) { return InvalidBlockSize, iv, 0; }
    status, counter, n := WalkPieces(encrypt, iv, blocksize, dst, src, answers);
    EncryptedIsCounterMode(encrypt, iv, blocksize, old(src[..]), old(dst[..]), dst[..], n);
    CounterValue(iv, Blocks(n, blocksize));
    BlocksRoundUp(n, blocksize);
    if status == Success {
      assert dst[..] == Ctr(encrypt, iv, blocksize, old(src[..]));
    }
  }

  /** Encrypting a buffer in place and then again from the same counter brings the message back. */
  method CtrRoundTrip(encrypt: Cipher, iv: seq<Byte>, blocksize: nat, buffer: array<Byte>,
                      once: seq<Answer>, again: seq<Answer>)
    returns (first: Status, second: Status)
    requires FillsBlock(encrypt, blocksize)
    requires blocksize > 0 ==> Legal(once, buffer.Length, blocksize) && Legal(again, buffer.Length, blocksize)
    modifies buffer
    ensures first == Success <==> IsPowerOf2(blocksize) && !Fails(once)
    ensures second == Success <==> IsPowerOf2(blocksize) && !Fails(again)
    ensures first == second == Success ==> buffer[..] == old(buffer[..])
  {
    ghost var message, n := buffer[..], 0;
    var counter;
    first, counter, n := CtrEncryptWalk(encrypt, iv, blocksize, buffer, buffer, once);
    second, counter, n := CtrEncryptWalk(encrypt, iv, blocksize, buffer, buffer, again);
    if first == second == Success { CtrTwice(encrypt, iv, blocksize, message); }
  }

  /** The outer loop over the pieces the walker offers. */
  method WalkPieces(encrypt: Cipher, iv: seq<Byte>, blocksize: nat, dst: array<Byte>, src: array<Byte>,
                    answers: seq<Answer>)
    returns (status: Status, counter: seq<Byte>, ghost n: nat)
    requires IsPowerOf2(blocksize) && FillsBlock(encrypt, blocksize) && dst.Length == src.Length
    requires Legal(answers, src.Length, blocksize)
    modifies dst
    ensures status == if Fails(answers) then WalkError else Success
    ensures n == Processed(answers, src.Length, blocksize)
    ensures EncryptedTo(encrypt, iv, blocksize, old(src[..]), old(dst[..]), dst[..], n)
    ensures counter == Counter(iv, Blocks(n, blocksize))
    ensures status == Success ==> n == src.Length
  {
    counter := iv;
    ghost var message, before := src[..], dst[..];
    var at, left := 0, answers;
    var nbytes;
    status, nbytes := NextPiece(left);
    assert Blocks(0, blocksize) == 0;
    while nbytes > 0
      invariant CameTo(answers, left, src.Length, at, blocksize)
      invariant status == if left != [] && left[0] == Failed then WalkError else Success
      invariant nbytes == if left != [] && left[0].Piece? then left[0].nbytes else 0
      invariant Positioned(iv, counter, blocksize, at, src.Length)
      invariant EncryptedTo(encrypt, iv, blocksize, message, before, dst[..], at)
      invariant forall j :: at <= j < src.Length ==> src[j] == message[j]
      decreases |left|
    {
      var size;
      counter, size := EncryptOffer(encrypt, iv, counter, blocksize, dst, src, at, nbytes, message, before);
      CameFurther(answers, left, src.Length, at, blocksize);
      at, left := at + size, left[1..];
      status, nbytes := NextPiece(left);
    }
    CameToEnd(answers, left, src.Length, at, blocksize);
    n := at;
  }

  /** One turn of the outer loop: the whole blocks of the piece offered, or all of it if it is the last. */
  method EncryptOffer(encrypt: Cipher, ghost iv: seq<Byte>, counter: seq<Byte>, blocksize: nat,
                      dst: array<Byte>, src: array<Byte>, at: nat, nbytes: nat,
                      ghost message: seq<Byte>, ghost before: seq<Byte>)
    returns (counter': seq<Byte>, size: nat)
    requires IsPowerOf2(blocksize) && FillsBlock(encrypt, blocksize)
    requires dst.Length == src.Length == |message| && 1 <= nbytes && at + nbytes <= dst.Length
    requires at + nbytes < dst.Length ==> nbytes >= blocksize
    requires Positioned(iv, counter, blocksize, at, src.Length)
    requires EncryptedTo(encrypt, iv, blocksize, message, before, dst[..], at)
    requires forall j :: at <= j < src.Length ==> src[j] == message[j]
    modifies dst
    ensures size == Whole(nbytes, src.Length - at, blocksize) && 0 < size && at + size <= src.Length
    ensures Positioned(iv, counter', blocksize, at + size, src.Length)
    ensures EncryptedTo(encrypt, iv, blocksize, message, before, dst[..], at + size)
    ensures forall j :: at + size <= j < src.Length ==> src[j] == message[j]
  {
    size := WholeBlocks(nbytes, src.Length - at, blocksize);
    AlignedAfter(at, 0, blocksize);
    counter' := EncryptPiece(encrypt, iv, counter, blocksize, dst, src, at, size, message, before);
    AlignedAfter(at, size, blocksize);
  }

  /** After `at` bytes of `length` the walker still has the answers `left` to give. */
  ghost predicate CameTo(answers: seq<Answer>, left: seq<Answer>, length: nat, at: nat, blocksize: nat)
    requires blocksize > 0
  {
    && at <= length && Legal(left, length - at, blocksize) && Fails(left) == Fails(answers)
    && at + Processed(left, length - at, blocksize) == Processed(answers, length, blocksize)
  }

  lemma CameFurther(answers: seq<Answer>, left: seq<Answer>, length: nat, at: nat, blocksize: nat)
    requires blocksize > 0 && CameTo(answers, left, length, at, blocksize)
    requires left != [] && left[0].Piece?
    ensures CameTo(answers, left[1..], length, at + Whole(left[0].nbytes, length - at, blocksize), blocksize)
  {
    FailsLater(left);
  }

  lemma CameToEnd(answers: seq<Answer>, left: seq<Answer>, length: nat, at: nat, blocksize: nat)
    requires blocksize > 0 && CameTo(answers, left, length, at, blocksize)
    requires left == [] || left[0] == Failed || left[0].nbytes == 0
    ensures at == Processed(answers, length, blocksize)
    ensures Fails(answers) <==> left != [] && left[0] == Failed
    ensures left == [] ==> at == length
  {
  }

  lemma FailsLater(answers: seq<Answer>)
    requires answers != [] && answers[0] != Failed
    ensures Fails(answers[1..]) == Fails(answers)
  {
    var later := answers[1..];
    if k :| 0 <= k < |answers| && answers[k] == Failed { assert later[k - 1] == Failed; }
    if k :| 0 <= k < |later| && later[k] == Failed { assert answers[k + 1] == Failed; }
  }

  lemma BlocksRoundUp(n: nat, b: nat)
    requires b > 0
    ensures Blocks(n, b) == (n + b - 1) / b
  {
    var q, r := n / b, n % b;
    assert n == q * b + r;
    MulAdd(q, 1, b);
    if r == 0 { DivUnique(n + b - 1, b, q); } else { DivUnique(n + b - 1, b, q + 1); }
  }

  /** The counter belongs to position `at`, which is a block boundary unless it is the end. */
  predicate Positioned(iv: seq<Byte>, counter: seq<Byte>, blocksize: nat, at: nat, length: nat)
    requires blocksize > 0
  {
    && counter == Counter(iv, Blocks(at, blocksize))
    && (at < length ==> at % blocksize == 0)
  }

  /** `nbytes - tail`, with the tail masked out of a piece that does not end the message. */
  method WholeBlocks(nbytes: nat, total: nat, blocksize: nat) returns (size: nat)
    requires IsPowerOf2(blocksize) && 1 <= nbytes <= total && (nbytes < total ==> nbytes >= blocksize)
    ensures size == Whole(nbytes, total, blocksize)
    ensures nbytes - size == if nbytes < total then nbytes % blocksize else 0
    ensures 0 < size <= nbytes && (size < total ==> size % blocksize == 0)
  {
    var tail := 0;
    if nbytes < total {
      MaskIsRemainder(nbytes, blocksize);
      WithoutRemainder(nbytes, blocksize);
      tail := And(nbytes, blocksize - 1);
    }
    size := nbytes - tail;
  }

  lemma AlignedAfter(at: nat, n: nat, b: nat)
    requires b > 0 && at % b == 0
    ensures n % b == 0 ==> (at + n) % b == 0 && Blocks(at + n, b) == (at + n) / b
  {
    if n % b == 0 {
      MulAdd(at / b, n / b, b);
      ModUnique(at + n, b, at / b + n / b, 0);
    }
  }

  lemma WithoutRemainder(n: nat, b: nat)
    requires b > 0
    ensures n % b <= n && n - n % b == n / b * b && (n - n % b) % b == 0 && (n >= b ==> n - n % b > 0)
  {
    assert n == (n / b) * b + n % b;
    MulNonnegative(n / b, b);
    ModUnique(n - n % b, b, n / b, 0);
  }
}
