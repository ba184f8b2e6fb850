/** `FakeString` of FractionalUCA.java: the generator of placeholder strings
    for the boundary rows, a two-unit UTF-16 buffer holding U+FDD0 and a
    counter unit that starts at '@' (0x40) and is bumped before each use. */
module FakeStrings {
  /** The number of UTF-16 code units: a Java `char` wraps modulo this. */
  const CHAR_MODULUS := 0x1_0000
  /** The noncharacter U+FDD0 in the first unit. */
  const FAKE_LEAD := 0xFDD0
  /** The initial counter unit, '@'. */
  const FAKE_START := 0x40

  /** The string returned by the `n`-th call of `next` (counting from 1). */
  function FakeName(n: nat): (s: seq<int>)
    ensures |s| == 2 && s[0] == FAKE_LEAD && 0 <= s[1] < CHAR_MODULUS
    ensures n < CHAR_MODULUS - FAKE_START ==> s[1] == FAKE_START + n
  {
    [FAKE_LEAD, (FAKE_START + n) % CHAR_MODULUS]
  }

  /** Any fewer than 0x10000 consecutive calls return pairwise different
      strings. */
  lemma FakeNamesDistinct(i: nat, j: nat)
    requires i < j < i + CHAR_MODULUS
    ensures FakeName(i) != FakeName(j)
  {
  }

  /** The `char` counter wraps: the call 0x10000 after another repeats its
      string. */
  lemma FakeNamesWrap(n: nat)
    ensures FakeName(n + CHAR_MODULUS) == FakeName(n)
  {
    assert (FAKE_START + n + CHAR_MODULUS) % CHAR_MODULUS == (FAKE_START + n) % CHAR_MODULUS;
  }

  class FakeString {
    var buffer: array<int>
    /** The number of calls of `next` so far. */
    ghost var calls: nat

    ghost predicate Valid()
      reads this, buffer
    {
      buffer.Length == 2
      && buffer[0] == FAKE_LEAD
      && buffer[1] == (FAKE_START + calls) % CHAR_MODULUS
    }

    /** The buffer starts as {U+FDD0, '@'}. */
    constructor ()
      ensures Valid() && calls == 0 && fresh(buffer)
    {
      buffer := new int[2](i => if i == 0 then FAKE_LEAD else FAKE_START);
      calls := 0;
    }

    /** `next`: bumps the counter unit (wrapping as a `char` does) and returns
        the buffer as a string. */
    method Next() returns (s: seq<int>)
      requires Valid()
      modifies this, buffer
      ensures Valid() && calls == old(calls) + 1 && buffer == old(buffer)
      ensures s == buffer[..] == FakeName(calls)
    {
      buffer[1] := (buffer[1] + 1) % CHAR_MODULUS;
      calls := calls + 1;
      assert buffer[1] == (FAKE_START + calls) % CHAR_MODULUS by {
        var m := FAKE_START + calls - 1;
        assert m == m / CHAR_MODULUS * CHAR_MODULUS + m % CHAR_MODULUS;
      }
      s := buffer[..];
    }
  }
}
