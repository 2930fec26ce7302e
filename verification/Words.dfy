/** Bytes, 32-bit words and chaining values, and the little-endian loads and stores between them. */
module Words {

  newtype Byte = b: int | 0 <= b < 256
  newtype Word = w: int | 0 <= w < 0x1_0000_0000

  /** A chaining value or key: eight 32-bit words. */
  datatype CV = CV(w0: Word, w1: Word, w2: Word, w3: Word, w4: Word, w5: Word, w6: Word, w7: Word)

  /** Pieces of input in a row. */
  function Concat(pieces: seq<seq<Byte>>): seq<Byte> {
    if |pieces| == 0 then [] else pieces[0] + Concat(pieces[1..])
  }

  lemma ConcatStep(pieces: seq<seq<Byte>>, i: nat)
    requires i < |pieces|
    ensures Concat(pieces[i..]) == pieces[i] + Concat(pieces[i + 1..])
  {
    assert pieces[i..][1..] == pieces[i + 1..];
  }

  lemma ConcatEnd(pieces: seq<seq<Byte>>)
    ensures Concat(pieces[|pieces|..]) == []
  {
  }

  /** A little-endian load of any width. */
  function Load(p: seq<Byte>): nat {
    if |p| == 0 then 0 else p[0] as nat + 0x100 * Load(p[1..])
  }

  lemma LoadNone()
    ensures Load([]) == 0
  {
  }

  lemma LoadCons(b: Byte, rest: seq<Byte>)
    ensures Load([b] + rest) == b as nat + 0x100 * Load(rest)
  {
    assert ([b] + rest)[1..] == rest;
  }

  function Store32(w: Word): (r: seq<Byte>)
    ensures |r| == 4
  {
    [(w % 0x100) as Byte, (w / 0x100 % 0x100) as Byte, (w / 0x1_0000 % 0x100) as Byte, (w / 0x100_0000) as Byte]
  }

  function Load32(p: seq<Byte>): Word
    requires |p| == 4
  {
    p[0] as Word + 0x100 * p[1] as Word + 0x1_0000 * p[2] as Word + 0x100_0000 * p[3] as Word
  }

  function StoreCV(cv: CV): (r: seq<Byte>)
    ensures |r| == 32
  {
    Store32(cv.w0) + Store32(cv.w1) + Store32(cv.w2) + Store32(cv.w3) +
    Store32(cv.w4) + Store32(cv.w5) + Store32(cv.w6) + Store32(cv.w7)
  }

  function LoadKeyWords(key: seq<Byte>): CV
    requires |key| == 32
  {
    CV(Load32(key[0..4]), Load32(key[4..8]), Load32(key[8..12]), Load32(key[12..16]),
       Load32(key[16..20]), Load32(key[20..24]), Load32(key[24..28]), Load32(key[28..32]))
  }

  lemma LoadStore32(w: Word)
    ensures Load32(Store32(w)) == w
  {
    var n := w as int;
    var q1, q2, q3 := n / 0x100, n / 0x1_0000, n / 0x100_0000;
    assert n == 0x100 * q1 + n % 0x100 && q1 == 0x100 * q2 + q1 % 0x100 && q2 == 0x100 * q3 + q2 % 0x100;
    assert q3 < 0x100;
  }

  lemma StoreLoad32(p: seq<Byte>)
    requires |p| == 4
    ensures Store32(Load32(p)) == p
  {
    var low, rest := p[0] as int, p[1] as int + 0x100 * (p[2] as int + 0x100 * p[3] as int);
    var w := Load32(p) as int;
    assert w == low + 0x100 * rest;
    assert w % 0x100 == low && w / 0x100 == rest;
    assert w / 0x1_0000 == rest / 0x100 && w / 0x100_0000 == rest / 0x1_0000;
    var q := Store32(Load32(p));
    assert q[0] == p[0] && q[1] == p[1] && q[2] == p[2] && q[3] == p[3];
  }

  /** Storing eight words and loading them back gives the words, so a chaining value kept as 32 bytes is the
      same thing as one kept as words. */
  lemma LoadStoreCV(cv: CV)
    ensures LoadKeyWords(StoreCV(cv)) == cv
  {
    hide Store32, Load32;
    var s := StoreCV(cv);
    assert s[0..4] == Store32(cv.w0) && s[4..8] == Store32(cv.w1);
    assert s[8..12] == Store32(cv.w2) && s[12..16] == Store32(cv.w3);
    assert s[16..20] == Store32(cv.w4) && s[20..24] == Store32(cv.w5);
    assert s[24..28] == Store32(cv.w6) && s[28..32] == Store32(cv.w7);
    LoadStore32(cv.w0); LoadStore32(cv.w1); LoadStore32(cv.w2); LoadStore32(cv.w3);
    LoadStore32(cv.w4); LoadStore32(cv.w5); LoadStore32(cv.w6); LoadStore32(cv.w7);
  }

  /** And the other way round: no two keys of 32 bytes load to the same words. */
  lemma StoreLoadKey(key: seq<Byte>)
    requires |key| == 32
    ensures StoreCV(LoadKeyWords(key)) == key
  {
    hide Store32, Load32;
    StoreLoad32(key[0..4]); StoreLoad32(key[4..8]); StoreLoad32(key[8..12]); StoreLoad32(key[12..16]);
    StoreLoad32(key[16..20]); StoreLoad32(key[20..24]); StoreLoad32(key[24..28]); StoreLoad32(key[28..32]);
  }

  // ----- the byte order

  /** The number eight words stand for, the first one lowest. */
  function Value(cv: CV): nat {
    cv.w0 as nat + 0x1_0000_0000 * (cv.w1 as nat + 0x1_0000_0000 * (cv.w2 as nat + 0x1_0000_0000 * (cv.w3 as nat +
    0x1_0000_0000 * (cv.w4 as nat + 0x1_0000_0000 * (cv.w5 as nat + 0x1_0000_0000 * (cv.w6 as nat +
    0x1_0000_0000 * cv.w7 as nat))))))
  }

  lemma LoadFour(p: seq<Byte>, rest: seq<Byte>)
    requires |p| == 4
    ensures Load(p + rest) == Load32(p) as nat + 0x1_0000_0000 * Load(rest)
  {
    hide Load;
    assert p == [p[0]] + [p[1]] + [p[2]] + [p[3]];
    assert p + rest == [p[0]] + ([p[1]] + ([p[2]] + ([p[3]] + rest)));
    LoadCons(p[3], rest);
    LoadCons(p[2], [p[3]] + rest);
    LoadCons(p[1], [p[2]] + ([p[3]] + rest));
    LoadCons(p[0], [p[1]] + ([p[2]] + ([p[3]] + rest)));
  }

  lemma LoadNext(key: seq<Byte>, i: nat)
    requires i + 4 <= |key|
    ensures Load(key[i..]) == Load32(key[i..i + 4]) as nat + 0x1_0000_0000 * Load(key[i + 4..])
  {
    hide Load, Load32;
    LoadFour(key[i..i + 4], key[i + 4..]);
    assert key[i..i + 4] + key[i + 4..] == key[i..];
  }

  /** The words of a key are the 32-bit digits of its bytes read as one little-endian number: both the bytes within
      a word and the words go from the lowest up. */
  lemma KeyIsLittleEndian(key: seq<Byte>)
    requires |key| == 32
    ensures Value(LoadKeyWords(key)) == Load(key)
  {
    hide Load, Load32;
    LoadNext(key, 0); LoadNext(key, 4); LoadNext(key, 8); LoadNext(key, 12);
    LoadNext(key, 16); LoadNext(key, 20); LoadNext(key, 24); LoadNext(key, 28);
    assert key[0..] == key && key[32..] == [];
    LoadNone();
  }

  /** And so is a chaining value stored as bytes. */
  lemma StoreIsLittleEndian(cv: CV)
    ensures Load(StoreCV(cv)) == Value(cv)
  {
    hide Load, StoreCV, LoadKeyWords, Value;
    LoadStoreCV(cv);
    KeyIsLittleEndian(StoreCV(cv));
  }
}
