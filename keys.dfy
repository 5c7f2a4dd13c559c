/** The key codec: a timestamp's minute bucket written in base 3, most
    significant digit first, as a double-ended queue of digits. */
module Keys {
  import opened Wrappers
  import opened Radix
  import Timestamps

  /** What `u32::from_str_radix(c, 10)` yields for a single character. */
  type Digit = d: nat | d < 10

  /** A key: its digits, front first. Only `FromBase3Str` builds keys, so every
      digit is a decimal digit; the trie follows the ones below 3. */
  type Key = seq<Digit>

  /** The key is a trie path: every digit selects one of the three children. */
  predicate ValidKey(k: Key)
  {
    forall i :: 0 <= i < |k| ==> k[i] < 3
  }

  /** `Key::from_base3_str`: every character parsed as a decimal digit, in
      order; the first character that is no decimal digit ends it with the
      panic "Invalid". */
  function FromBase3Str(s: string): (r: Outcome<Key>)
    ensures r.Ok? <==> forall i :: 0 <= i < |s| ==> ToDigit(s[i], 10).Some?
    ensures r.Ok? ==> |r.value| == |s| && forall i :: 0 <= i < |s| ==> ToDigit(s[i], 10) == Some(r.value[i])
    ensures r.Err? ==> r.message == "Invalid"
  {
    if s == [] then Ok([])
    else
      var c := [s[0]];
      assert DigitsOf(c, 10).Some? ==> ValueOf(DigitsOf(c, 10).value, 10) == DigitsOf(c, 10).value[0] by {
        if DigitsOf(c, 10).Some? {
          assert DigitsOf(c, 10).value[..0] == [];
        }
      }
      match FromStrRadix(c, 10)
      case None => Err("Invalid")
      case Some(d) =>
        match FromBase3Str(s[1..])
        case Err(e) => Err(e)
        case Ok(rest) => Ok([d as Digit] + rest)
  }

  /** The text `to_millis` parses: each digit's decimal `to_string`, concatenated. */
  function DigitsText(k: Key): (s: string)
    ensures |s| == |k| && forall i :: 0 <= i < |k| ==> s[i] == FromDigit(k[i], 10)
  {
    seq(|k|, i requires 0 <= i < |k| => FromDigit(k[i], 10))
  }

  /** `Key::to_millis`: the digits read as a base-3 number. It returns the
      minute count (not milliseconds), and panics with "Invalid key" on an
      empty key, on a digit of 3 or more, or on a value that overflows `u64`. */
  function ToMillis(k: Key): (r: Outcome<u64>)
    ensures r.Ok? <==> |k| > 0 && ValidKey(k) && ValueOf(k, 3) < U64_LIMIT
    ensures r.Ok? ==> r.value == ValueOf(k, 3)
    ensures r.Err? ==> r.message == "Invalid key"
  {
    var text := DigitsText(k);
    DigitsTextInBase3(k);
    match FromStrRadix(text, 3)
    case Some(v) => Ok(v)
    case None => Err("Invalid key")
  }

  /** A key's text spells its digits in base 3 exactly when every digit is below 3. */
  lemma DigitsTextInBase3(k: Key)
    ensures DigitsOf(DigitsText(k), 3).Some? <==> ValidKey(k)
    ensures ValidKey(k) ==> DigitsOf(DigitsText(k), 3).value == k
  {
    var s := DigitsText(k);
    forall i | 0 <= i < |k|
      ensures ToDigit(s[i], 3) == if k[i] < 3 then Some(k[i] as nat) else None
    {
      assert ToDigit(s[i], 10) == Some(k[i] as nat);
    }
    if !ValidKey(k) {
      var i :| 0 <= i < |k| && k[i] >= 3;
      assert ToDigit(s[i], 3).None?;
    } else {
      assert DigitsOf(s, 3).value == k;
    }
  }

  /** `Key::from_millis`: the minute bucket `millis / 1000 / 60` printed in
      base 3 with no padding, then parsed by `FromBase3Str` (which cannot fail
      on that text). */
  function FromMillis(millis: u64): (k: Key)
    ensures ValidKey(k) && Canonical(k)
    ensures ValueOf(k, 3) == millis / 60000
  {
    var bucket := millis / 1000 / 60;
    var text := RadixText(bucket, 3);
    RadixTextRoundTrip(bucket, 3);
    var r := FromBase3Str(text);
    assert r.value == ToBase(bucket, 3) by {
      forall i | 0 <= i < |text| ensures r.value[i] == ToBase(bucket, 3)[i] {
        assert ToDigit(text[i], 3) == Some(ToBase(bucket, 3)[i]);
        assert ToDigit(text[i], 10) == Some(r.value[i] as nat);
      }
    }
    r.value
  }

  /** `from_millis` yields exactly the base-3 digits of the minute bucket:
      any canonical base-3 digit sequence of that value is this key. */
  lemma FromMillisIsBase3(millis: u64, k: Key)
    ensures FromMillis(millis) == ToBase(millis / 60000, 3)
    ensures ValidKey(k) && Canonical(k) && ValueOf(k, 3) == millis / 60000 ==> k == FromMillis(millis)
  {
    var f := FromMillis(millis);
    ToBaseUnique(f, 3);
    if ValidKey(k) && Canonical(k) && ValueOf(k, 3) == millis / 60000 {
      ToBaseUnique(k, 3);
    }
  }

  /** The key of a millisecond instant reads back as its minute count. */
  lemma ToMillisFromMillis(millis: u64)
    ensures ToMillis(FromMillis(millis)) == Ok(millis / 60000)
  {
  }

  /** `VecDeque::pop_front` on the key, as a value: the front digit (None on
      an empty key) and the digits that remain, in order. */
  function Split(k: Key): (r: (Option<Digit>, Key))
    ensures r.0.None? <==> k == []
    ensures r.0.None? ==> r.1 == []
    ensures r.0.Some? ==> [r.0.value] + r.1 == k
  {
    if k == [] then (None, []) else (Some(k[0]), k[1..])
  }

  /** A key owned by `insert_key`, which consumes it front first. */
  class KeyBuffer {
    var digits: Key

    constructor (k: Key)
      ensures digits == k
    {
      digits := k;
    }

    /** `Key::pop_front`: removes and returns the front digit, leaving the
        rest in order; on an empty key returns None and changes nothing. */
    method PopFront() returns (d: Option<Digit>)
      modifies this
      ensures old(digits) == [] ==> d == None && digits == []
      ensures old(digits) != [] ==> d == Some(old(digits)[0]) && digits == old(digits)[1..]
      ensures (d, digits) == Split(old(digits))
    {
      if digits == [] {
        d := None;
      } else {
        d := Some(digits[0]);
        digits := digits[1..];
      }
    }
  }

  /** `From<Timestamp> for Key`: the key of the timestamp's millisecond. */
  function KeyOf(ts: Timestamps.Timestamp): (k: Key)
    ensures ValidKey(k) && Canonical(k) && ValueOf(k, 3) == ts.millis / 60000
  {
    FromMillis(ts.millis)
  }

  /** `From<Key> for Timestamp`: `Timestamp::from_millis` of `to_millis`, so
      the minute count lands in the millisecond field, counter 0, empty node. */
  function TimestampOf(k: Key): (r: Outcome<Timestamps.Timestamp>)
    ensures r.Ok? <==> ToMillis(k).Ok?
    ensures r.Ok? ==> r.value == Timestamps.Timestamp(ToMillis(k).value, 0, "")
    ensures r.Err? ==> r.message == "Invalid key"
  {
    match ToMillis(k)
    case Ok(minutes) => Ok(Timestamps.FromMillis(minutes))
    case Err(e) => Err(e)
  }

  /** Key then timestamp loses everything but the minute count. */
  lemma TimestampOfKeyOf(ts: Timestamps.Timestamp)
    ensures TimestampOf(KeyOf(ts)) == Ok(Timestamps.Timestamp(ts.millis / 60000, 0, ""))
  {
    ToMillisFromMillis(ts.millis);
  }

  /** The key "101" spells ten minutes. */
  lemma Base3OfTen()
    ensures ValueOf([1, 0, 1], 3) == 10
  {
    var k: seq<nat> := [1, 0, 1];
    assert k[..2] == [1, 0] && k[..2][..1] == [1] && k[..2][..1][..0] == [];
    assert ValueOf([1], 3) == 1;
    assert ValueOf([1, 0], 3) == 3;
  }

  /** Ten minutes is key "101". */
  lemma TenMinutesToKey()
    ensures KeyOf(Timestamps.FromMillis(10 * 1000 * 60)) == [1, 0, 1]
  {
    var k: Key := [1, 0, 1];
    Base3OfTen();
    assert ValidKey(k) && Canonical(k);
    FromMillisIsBase3(600000, k);
  }

  /** The text "101" parses to key 1, 0, 1. */
  lemma ParseTenMinutesKey()
    ensures FromBase3Str("101") == Ok([1, 0, 1])
  {
    var k := FromBase3Str("101");
    assert k.value == [1, 0, 1];
  }

  /** Key "101" becomes the timestamp whose millisecond field holds 10. */
  lemma KeyToTimestampExample()
    ensures TimestampOf([1, 0, 1]) == Ok(Timestamps.FromMillis(10))
  {
    Base3OfTen();
  }

  /** "123" parses (any decimal digit is accepted) and pops 1 first. */
  lemma PopFrontExample()
    ensures FromBase3Str("123") == Ok([1, 2, 3])
    ensures Split([1, 2, 3]) == (Some(1), [2, 3])
  {
    var k := FromBase3Str("123");
    assert k.value == [1, 2, 3];
  }

  /** The `key_pop_front` test on a key object: popping the key "123" parses
      to returns 1 and leaves 2, 3. */
  method PopFrontOnKey() returns (d: Option<Digit>, rest: Key)
    ensures d == Some(1) && rest == [2, 3]
  {
    PopFrontExample();
    var key := new KeyBuffer(FromBase3Str("123").value);
    d := key.PopFront();
    rest := key.digits;
  }
}
