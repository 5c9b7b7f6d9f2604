/** sdbm_hash: the loop unrolled eight times and entered in the middle, against the plain
    loop and the polynomial that both compute. */
module SdbmHash {
  /** Values of an unsigned long. */
  const WORD: int := 0x1_0000_0000_0000_0000

  /** HASHC, on a char that is signed. */
  function Step(n: int, c: int): int {
    (c + 65599 * n) % WORD
  }

  /** The characters as digits to base 65599, not wrapped. */
  function Polynomial(s: seq<int>): int {
    if s == [] then 0 else s[|s| - 1] + 65599 * Polynomial(s[..|s| - 1])
  }

  function Hash(s: seq<int>): int {
    Polynomial(s) % WORD
  }

  lemma WrapOnce(p: int, c: int)
    ensures (c + 65599 * (p % WORD)) % WORD == (c + 65599 * p) % WORD
  {
    var q := p / WORD;
    assert c + 65599 * p == WORD * (65599 * q) + (c + 65599 * (p % WORD));
    Multiple(65599 * q, c + 65599 * (p % WORD));
  }

  lemma Multiple(k: int, x: int)
    ensures (WORD * k + x) % WORD == x % WORD
  {
  }

  /** Wrapping at every step is wrapping once at the end. */
  lemma OneMore(s: seq<int>, i: nat)
    requires i < |s|
    ensures Hash(s[..i + 1]) == Step(Hash(s[..i]), s[i])
  {
    assert s[..i + 1][..i] == s[..i];
    WrapOnce(Polynomial(s[..i]), s[i]);
  }

  /** The plain loop */
  method PlainHash(str: seq<int>, len: nat) returns (n: int)
    requires len <= |str|
    ensures n == Hash(str[..len])
  {
    hide Step, Hash;
    n := 0;
    NothingHashed(str);
    var p, left := 0, len;
    while left > 0
      invariant p + left == len && n == Hash(str[..p])
    {
      OneMore(str, p);
      left := left - 1;
      n := Step(n, str[p]);
      p := p + 1;
    }
  }

  lemma NothingHashed(str: seq<int>)
    ensures Hash(str[..0]) == 0
  {
  }

  /** Duff's device: the switch jumps past the first start steps of the first round; used
      tells how many characters were read. */
  method DuffHash(str: seq<int>, len: nat) returns (n: int, used: nat)
    requires len <= |str|
    ensures n == Hash(str[..len]) && used == len
  {
    hide Step, Hash;
    n, used := 0, 0;
    NothingHashed(str);
    if len > 0 {
      var loop, start := (len + 7) / 8, (8 - len % 8) % 8;
      while loop > 0
        invariant used + 8 * loop - start == len && 0 <= start < 8 && 0 <= loop && (loop == 0 ==> start == 0)
        invariant n == Hash(str[..used])
      {
        for k := start to 8
          invariant used + 8 * loop - k == len && n == Hash(str[..used])
        {
          OneMore(str, used);
          n := Step(n, str[used]);
          used := used + 1;
        }
        start := 0;
        loop := loop - 1;
      }
    }
  }
}
