/** The dictionary object of dictionary.c: three parallel arrays with holes, cached
    hashes, doubling, and a probe that wraps around. */
module Dictionary {
  import opened CStrings
  import Model = DictionaryModel

  /** `unsigned` holds 32 bits and wraps around. */
  const WORD: nat := 0x1_0000_0000

  type Word = w: nat | w < WORD

  /** `(unsigned) key[i]` of a signed byte. */
  function Unsigned(c: char): Word {
    var b := c as int % 256;
    if b < 128 then b else 0xFFFF_FF00 + b
  }

  function Plus(a: Word, b: nat): Word {
    (a + b) % WORD
  }

  /** `^`, bit by bit. */
  function Xor(a: nat, b: nat): nat {
    if a == 0 then b else if b == 0 then a else (a + b) % 2 + 2 * Xor(a / 2, b / 2)
  }

  /** Shifting right only clears bits, so this fits a word. */
  function XorShift(a: Word, divisor: nat): Word
    requires divisor > 0
  {
    Xor(a, a / divisor) % WORD
  }

  function Mixed(h: Word, c: char): Word {
    var a := Plus(h, Unsigned(c));
    XorShift(Plus(a, a * 1024), 64)
  }

  function HashPrefix(key: string, n: nat): Word
    requires n <= |key|
  {
    if n == 0 then 0 else Mixed(HashPrefix(key, n - 1), key[n - 1])
  }

  /** `dictionary_hash`; nothing below depends on which function of the key this is. */
  function HashOf(key: string): Word {
    var a := HashPrefix(key, |key|);
    var b := XorShift(Plus(a, a * 8), 2048);
    Plus(b, b * 32768)
  }

  /** The binary digit of `a` at place `k`. */
  function Digit(a: nat, k: nat): nat {
    if k == 0 then a % 2 else Digit(a / 2, k - 1)
  }

  lemma {:induction false} XorDigits(a: nat, b: nat, k: nat)
    ensures Digit(Xor(a, b), k) == if Digit(a, k) == Digit(b, k) then 0 else 1
  {
    if a == 0 || b == 0 {
      DigitOfZero(k);
      DigitIsBit(a, k);
      DigitIsBit(b, k);
    } else {
      LowDigit((a + b) % 2, Xor(a / 2, b / 2));
      if k > 0 {
        hide Xor;
        XorDigits(a / 2, b / 2, k - 1);
      }
    }
  }

  lemma LowDigit(digit: nat, rest: nat)
    requires digit < 2
    ensures (digit + 2 * rest) % 2 == digit && (digit + 2 * rest) / 2 == rest
  {
  }

  lemma {:induction false} DigitOfZero(k: nat)
    ensures Digit(0, k) == 0
  {
    if k > 0 {
      DigitOfZero(k - 1);
    }
  }

  lemma {:induction false} DigitIsBit(a: nat, k: nat)
    ensures Digit(a, k) < 2
  {
    if k > 0 {
      DigitIsBit(a / 2, k - 1);
    }
  }

  lemma FirstXor()
    ensures Xor(1025, 16) == 1041
  {
    assert Xor(64, 1) == 65;
    assert Xor(128, 2) == 130;
    assert Xor(256, 4) == 260;
    assert Xor(512, 8) == 520;
  }

  lemma SecondXor()
    ensures Xor(9369, 4) == 9373
  {
    assert Xor(2342, 1) == 2343;
    assert Xor(4684, 2) == 4686;
  }

  lemma FirstRound()
    ensures HashPrefix([1 as char], 1) == 1041
  {
    FirstXor();
    hide Xor;
    assert HashPrefix([1 as char], 0) == 0;
  }

  /** A value worked out by hand: the shifts are by 10, 6, 3, 11 and 15. */
  lemma HashValue()
    ensures HashOf([1 as char]) == 307143837
  {
    FirstRound();
    SecondXor();
    hide Xor, HashPrefix;
  }

  /** Bytes from 128 on are negative, and their sign is extended. */
  lemma SignIsExtended(c: char)
    requires c as int < 256
    ensures Unsigned(c) == if c as int < 128 then c as int else 4294967040 + c as int
  {
  }

  method Hash(key: string) returns (hash: Word)
    ensures hash == HashOf(key)
  {
    hash := 0;
    for i := 0 to |key|
      invariant hash == HashPrefix(key, i)
    {
      hash := Plus(hash, Unsigned(key[i]));
      hash := Plus(hash, hash * 1024);
      hash := XorShift(hash, 64);
    }
    hash := Plus(hash, hash * 8);
    hash := XorShift(hash, 2048);
    hash := Plus(hash, hash * 32768);
  }

  /** `mem_double`: twice the room, the old cells first, the rest zero. */
  method MemDouble<T(0)>(block: array<T>, zero: T) returns (doubled: array<T>)
    ensures fresh(doubled) && doubled.Length == 2 * block.Length
    ensures doubled[..block.Length] == block[..]
    ensures forall i | block.Length <= i < doubled.Length :: doubled[i] == zero
  {
    doubled := new T[2 * block.Length](_ => zero);
    for i := 0 to block.Length
      invariant forall j | 0 <= j < i :: doubled[j] == block[j]
      invariant forall j | i <= j < doubled.Length :: doubled[j] == zero
    {
      doubled[i] := block[i];
    }
  }

  class Dictionary {
    var n: nat
    var size: nat
    var val: array<Option<string>>
    var key: array<Option<string>>
    var hash: array<Word>
    ghost var slots: Model.Slots

    /** The arrays spell out `slots`, and every key has its hash beside it. */
    ghost predicate Arrays()
      reads `slots, `size, `val, `key, `hash, val, key, hash
    {
      && |slots| == size == val.Length == key.Length == hash.Length
      && val != key
      && (forall i | 0 <= i < size ::
            slots[i] == if key[i].None? then Model.Hole else Model.Used(key[i].value, val[i]))
      && (forall i | 0 <= i < size && key[i].Some? :: hash[i] == HashOf(key[i].value))
    }

    ghost predicate Valid()
      reads this, val, key, hash
    {
      Arrays() && size > 0 && n == Model.Count(slots) && Model.DistinctKeys(slots)
    }

    lemma Sizes()
      requires Arrays()
      ensures |slots| == size
    {
    }

    /** The cells behind slot `i`. */
    lemma Cell(i: nat)
      requires Valid() && i <= size
      ensures |slots| == size == key.Length == val.Length
      ensures i < size ==> slots[i] == if key[i].None? then Model.Hole else Model.Used(key[i].value, val[i])
    {
    }

    /** `dictionary_new` */
    constructor (wanted: int)
      ensures Valid() && fresh(val) && fresh(key) && fresh(hash)
      ensures size == (if wanted < 128 then 128 else wanted) && n == 0
      ensures slots == Model.History(wanted, [])
    {
      var room := if wanted < 128 then 128 else wanted;
      n := 0;
      size := room;
      val := new Option<string>[room](_ => None);
      key := new Option<string>[room](_ => None);
      hash := new Word[room](_ => 0);
      slots := Model.Holes(room);
      new;
      Model.NothingIn(room);
      hide Model.Count;
    }

    /** The search loop of get, set and unset: hashes first, then the strings. */
    method Find(k: string, h: Word) returns (i: nat)
      requires Arrays() && h == HashOf(k)
      ensures i == Model.Find(slots, k)
    {
      i := 0;
      while i < size
        invariant i <= size
        invariant forall j | 0 <= j < i :: !Model.HasKey(slots[j], k)
      {
        if key[i].Some? {
          if h == hash[i] {
            if k == key[i].value {
              break;
            }
          }
        }
        i := i + 1;
      }
      FindIs(slots, k, i);
    }

    /** `dictionary_get` */
    method Get(k: string, def: Option<string>) returns (r: Option<string>)
      requires Valid()
      ensures r == Model.Get(slots, k, def)
    {
      var h := Hash(k);
      var i := Find(k, h);
      if i < size {
        return val[i];
      }
      return def;
    }

    method Grow()
      requires Arrays() && size > 0
      modifies this`val, this`key, this`hash, this`size, this`slots
      ensures Arrays() && slots == old(slots) + Model.Holes(old(size))
      ensures fresh(val) && fresh(key) && fresh(hash)
    {
      val := MemDouble(val, None);
      key := MemDouble(key, None);
      hash := MemDouble(hash, 0);
      size := 2 * size;
      slots := slots + Model.Holes(|slots|);
    }

    /** The probe for a free slot: from `n` up, once around. */
    method FreeSlot() returns (i: nat)
      requires Arrays() && n == Model.Count(slots) < size
      ensures i == Model.Probe(slots, n)
    {
      Model.HoleExists(slots);
      i := n;
      ghost var wrapped := false;
      while key[i].Some?
        invariant i < size
        invariant !wrapped ==> n <= i && forall j | n <= j < i :: slots[j].Used?
        invariant wrapped ==> (forall j | n <= j < size :: slots[j].Used?) && forall j | 0 <= j < i :: slots[j].Used?
        decreases !wrapped, size - i
      {
        i := i + 1;
        if i == size {
          i := 0;
          assert !wrapped;
          wrapped := true;
        }
      }
      HoleIs(slots, if wrapped then 0 else n, i);
    }

    /** Fill slot `i`, or overwrite it. */
    method Store(i: nat, k: string, v: Option<string>, h: Word)
      requires Arrays() && i < size && h == HashOf(k)
      modifies this`slots, val, key, hash
      ensures Arrays() && slots == old(slots)[i := Model.Used(k, v)]
    {
      key[i] := Some(k);
      val[i] := v;
      hash[i] := h;
      slots := slots[i := Model.Used(k, v)];
    }

    method Overwrite(i: nat, k: string, v: Option<string>)
      requires Arrays() && i < size && Model.HasKey(slots[i], k)
      modifies this`slots, val
      ensures Arrays() && slots == old(slots)[i := Model.Used(k, v)]
    {
      val[i] := v;
      slots := slots[i := Model.Used(k, v)];
    }

    method Clear(i: nat)
      requires Arrays() && i < size
      modifies this`slots, val, key, hash
      ensures Arrays() && slots == old(slots)[i := Model.Hole]
    {
      key[i] := None;
      val[i] := None;
      hash[i] := 0;
      slots := slots[i := Model.Hole];
    }

    /** `dictionary_set`; false stands for -1. */
    method Set(k: Option<string>, v: Option<string>) returns (ok: bool)
      requires Valid()
      modifies this, val, key, hash
      ensures Valid() && (fresh(val) || val == old(val)) && (fresh(key) || key == old(key)) && (fresh(hash) || hash == old(hash))
      ensures ok == k.Some? && slots == Model.Apply(old(slots), Model.DoSet(k, v))
    {
      if k.None? {
        return false;
      }
      hide Arrays, HashOf, Model.Find, Model.Count, Model.DistinctKeys, Model.Set;
      var h := Hash(k.value);
      Sizes();
      Model.SetCases(slots, k.value, v);
      if n > 0 {
        var i := Find(k.value, h);
        if i < size {
          Overwrite(i, k.value, v);
          return true;
        }
      } else {
        NoneFound(slots, k.value);
      }
      Add(k.value, v, h);
      ok := true;
    }

    /** Grow when full, then fill the slot the probe finds. */
    method Add(k: string, v: Option<string>, h: Word)
      requires Valid() && h == HashOf(k) && Model.Find(slots, k) == |slots|
      modifies this, val, key, hash
      ensures Valid() && (fresh(val) || val == old(val)) && (fresh(key) || key == old(key)) && (fresh(hash) || hash == old(hash))
      ensures slots == Model.Set(old(slots), k, v)
    {
      hide Arrays, HashOf, Model.Find, Model.Count, Model.DistinctKeys, Model.Probe, Model.Set, Model.Holes;
      Sizes();
      Model.SetCases(slots, k, v);
      if n == size {
        Grow();
        Sizes();
      }
      var i := FreeSlot();
      Store(i, k, v, h);
      n := n + 1;
    }

    /** `dictionary_unset` */
    method Unset(k: Option<string>)
      requires Valid()
      modifies this, val, key, hash
      ensures Valid() && val == old(val) && key == old(key) && hash == old(hash)
      ensures slots == Model.Apply(old(slots), Model.DoUnset(k))
    {
      if k.None? {
        return;
      }
      hide Arrays, HashOf, Model.Find, Model.Count, Model.DistinctKeys, Model.Unset;
      Sizes();
      Model.UnsetCases(slots, k.value);
      var h := Hash(k.value);
      var i := Find(k.value, h);
      if i >= size {
        return;
      }
      Clear(i);
      n := n - 1;
    }
  }

  lemma FindIs(s: Model.Slots, k: string, i: nat)
    requires i <= |s| && forall j | 0 <= j < i :: !Model.HasKey(s[j], k)
    requires i < |s| ==> Model.HasKey(s[i], k)
    ensures Model.Find(s, k) == i
  {
  }

  lemma HoleIs(s: Model.Slots, from: nat, i: nat)
    requires from <= i < |s| && s[i].Hole? && forall j | from <= j < i :: s[j].Used?
    ensures Model.HoleFrom(s, from) == i
  {
  }

  /** Skipping the search in an empty dictionary finds nothing less. */
  lemma {:induction false} NoneFound(s: Model.Slots, k: string)
    requires Model.Count(s) == 0
    ensures Model.Find(s, k) == |s|
  {
    AllHoles(s);
  }

  lemma {:induction false} AllHoles(s: Model.Slots)
    requires Model.Count(s) == 0
    ensures forall i | 0 <= i < |s| :: s[i].Hole?
  {
    if s != [] {
      AllHoles(s[..|s| - 1]);
    }
  }
}
