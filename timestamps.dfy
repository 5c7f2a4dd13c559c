/** Hybrid logical timestamps and their canonical string, the text whose
    32-bit hash is what the trie aggregates. */
module Timestamps {
  import opened Wrappers
  import opened Radix

  /** A timestamp: wall-clock milliseconds, a counter and the id of the node
      that made it. */
  datatype Timestamp = Timestamp(millis: u64, counter: u64, node: string)

  /** The two library calls the canonical string and the hash depend on: the
      RFC 3339 text of a millisecond instant (chrono's
      `Utc.timestamp_millis(..).to_rfc3339()`) and `murmur3::hash32`. */
  datatype Foreign = Foreign(rfc3339: int -> string, murmur3: string -> bv32)

  /** `Timestamp::from_millis`: counter 0 and an empty node id. */
  function FromMillis(millis: u64): (ts: Timestamp)
    ensures ts.millis == millis && ts.counter == 0 && ts.node == ""
  {
    Timestamp(millis, 0, "")
  }

  /** `millis as i64`: the two's-complement reinterpretation of a `u64`. */
  function AsI64(millis: u64): (r: int)
    ensures -0x8000_0000_0000_0000 <= r < 0x8000_0000_0000_0000
    ensures (r - millis) % U64_LIMIT == 0
    ensures millis < 0x8000_0000_0000_0000 ==> r == millis
  {
    if millis < 0x8000_0000_0000_0000 then millis else millis - U64_LIMIT
  }

  /** `format!("{:0>w}", s)`: `s` right-aligned in a field of `w` characters
      filled with `fill`. */
  function PadLeft(s: string, width: nat, fill: char): (r: string)
    ensures |r| == if |s| < width then width else |s|
    ensures r[|r| - |s|..] == s
    ensures forall i :: 0 <= i < |r| - |s| ==> r[i] == fill
  {
    if |s| < width then seq(width - |s|, _ => fill) + s else s
  }

  /** ASCII upper case of one character. */
  function UpperChar(c: char): char
  {
    if 'a' <= c <= 'z' then (c as int - 32) as char else c
  }

  /** `str::to_uppercase`, over the ASCII characters the counter text uses. */
  function ToUpper(s: string): (r: string)
    ensures |r| == |s| && forall i :: 0 <= i < |s| ==> r[i] == UpperChar(s[i])
  {
    seq(|s|, i requires 0 <= i < |s| => UpperChar(s[i]))
  }

  /** The counter field: upper-case hexadecimal, left-padded with '0' to at
      least four characters. Read back as hexadecimal it is the counter. */
  function CounterText(counter: u64): (r: string)
    ensures |r| == if |RadixText(counter, 16)| < 4 then 4 else |RadixText(counter, 16)|
    ensures forall i :: 0 <= i < |r| ==> '0' <= r[i] <= '9' || 'A' <= r[i] <= 'F'
    ensures FromStrRadix(r, 16) == Some(counter)
  {
    var hex := RadixText(counter, 16);
    var padded := PadLeft(hex, 4, '0');
    var r := ToUpper(padded);
    CounterTextParses(counter, hex, padded, r);
    r
  }

  lemma CounterTextParses(counter: u64, hex: string, padded: string, r: string)
    requires hex == RadixText(counter, 16) && padded == PadLeft(hex, 4, '0') && r == ToUpper(padded)
    ensures forall i :: 0 <= i < |r| ==> '0' <= r[i] <= '9' || 'A' <= r[i] <= 'F'
    ensures FromStrRadix(r, 16) == Some(counter)
  {
    var ds := ToBase(counter, 16);
    var z := |padded| - |hex|;
    var zs: seq<nat> := seq(z, _ => 0);
    var all := zs + ds;
    assert |r| == |all|;
    forall i | 0 <= i < |r|
      ensures ToDigit(r[i], 16) == Some(all[i])
      ensures '0' <= r[i] <= '9' || 'A' <= r[i] <= 'F'
    {
      if i < z {
        assert padded[i] == '0';
        UpperHexDigit(0);
      } else {
        assert padded[i] == hex[i - z] == FromDigit(ds[i - z], 16);
        UpperHexDigit(ds[i - z]);
      }
    }
    assert DigitsOf(r, 16).value == all;
    ValueOfLeadingZeros(z, ds, 16);
  }

  /** An upper-cased hexadecimal digit reads as the same digit. */
  lemma UpperHexDigit(d: nat)
    requires d < 16
    ensures ToDigit(UpperChar(FromDigit(d, 16)), 16) == Some(d)
    ensures var c := UpperChar(FromDigit(d, 16)); '0' <= c <= '9' || 'A' <= c <= 'F'
  {
  }

  /** The node field: the node id left-padded with '0' to at least 16 characters. */
  function NodeText(node: string): (r: string)
    ensures |r| == if |node| < 16 then 16 else |node|
    ensures r[|r| - |node|..] == node
    ensures forall i :: 0 <= i < |r| - |node| ==> r[i] == '0'
  {
    PadLeft(node, 16, '0')
  }

  /** `[String]::join(sep)`: the parts with `sep` between each two of them. */
  function Join(parts: seq<string>, sep: string): string
  {
    if parts == [] then ""
    else if |parts| == 1 then parts[0]
    else parts[0] + (sep + Join(parts[1..], sep))
  }

  /** `Timestamp::to_string`: time text, counter text and node text joined with "-". */
  function ToString(ts: Timestamp, lib: Foreign): string
  {
    Join([lib.rfc3339(AsI64(ts.millis)), CounterText(ts.counter), NodeText(ts.node)], "-")
  }

  /** `Timestamp::hash`: the 32-bit hash of the canonical string. */
  function Hash(ts: Timestamp, lib: Foreign): bv32
  {
    lib.murmur3(ToString(ts, lib))
  }

  /** Two timestamps of the same millisecond with the same canonical string
      have the same counter and the same padded node id; with node ids of
      equal length they are the same timestamp. */
  lemma CanonicalStringDetermines(a: Timestamp, b: Timestamp, lib: Foreign)
    requires a.millis == b.millis && ToString(a, lib) == ToString(b, lib)
    ensures a.counter == b.counter
    ensures NodeText(a.node) == NodeText(b.node)
    ensures |a.node| == |b.node| ==> a == b
  {
    var t := lib.rfc3339(AsI64(a.millis));
    var ca, cb := CounterText(a.counter), CounterText(b.counter);
    var na, nb := NodeText(a.node), NodeText(b.node);
    JoinThree(t, ca, na);
    JoinThree(t, cb, nb);
    DropCommonPrefix(t, "-" + (ca + ("-" + na)), "-" + (cb + ("-" + nb)));
    DropCommonPrefix("-", ca + ("-" + na), cb + ("-" + nb));
    CounterTextHasNoDash(a.counter);
    CounterTextHasNoDash(b.counter);
    SplitAtFirstDash(ca, na, cb, nb);
    assert FromStrRadix(ca, 16) == Some(a.counter);
    assert FromStrRadix(cb, 16) == Some(b.counter);
    if |a.node| == |b.node| {
      assert a.node == na[|na| - |a.node|..] == nb[|nb| - |b.node|..] == b.node;
    }
  }

  lemma JoinThree(x: string, y: string, z: string)
    ensures Join([x, y, z], "-") == x + ("-" + (y + ("-" + z)))
  {
    assert [x, y, z][1..] == [y, z];
    assert [y, z][1..] == [z];
    assert Join([z], "-") == z;
    assert Join([y, z], "-") == y + ("-" + z);
  }

  lemma DropCommonPrefix(t: string, x: string, y: string)
    requires t + x == t + y
    ensures x == y
  {
    assert x == (t + x)[|t|..];
    assert y == (t + y)[|t|..];
  }

  lemma CounterTextHasNoDash(counter: u64)
    ensures '-' !in CounterText(counter)
  {
  }

  /** In `head + "-" + tail` with a dash-free head, the first dash sits right after the head. */
  lemma FirstDash(h: string, t: string)
    requires '-' !in h
    ensures (h + ("-" + t))[|h|] == '-'
    ensures forall i :: 0 <= i < |h| ==> (h + ("-" + t))[i] == h[i] != '-'
  {
  }

  /** A dash-free head is recovered from `head + "-" + tail`. */
  lemma SplitAtFirstDash(h1: string, t1: string, h2: string, t2: string)
    requires '-' !in h1 && '-' !in h2
    requires h1 + ("-" + t1) == h2 + ("-" + t2)
    ensures h1 == h2 && t1 == t2
  {
    var s1, s2 := h1 + ("-" + t1), h2 + ("-" + t2);
    FirstDash(h1, t1);
    FirstDash(h2, t2);
    if |h1| < |h2| {
      assert false;
    } else if |h2| < |h1| {
      assert false;
    }
    assert h1 == s1[..|h1|];
    assert h2 == s2[..|h2|];
    assert t1 == s1[|h1| + 1..];
    assert t2 == s2[|h2| + 1..];
  }

  /** Zero padding makes a short node id and the same id with a leading '0'
      indistinguishable: both timestamps have one canonical string, so one hash. */
  lemma LeadingZeroNodeCollides(ts: Timestamp, lib: Foreign)
    requires |ts.node| < 16
    ensures ToString(ts.(node := "0" + ts.node), lib) == ToString(ts, lib)
    ensures Hash(ts.(node := "0" + ts.node), lib) == Hash(ts, lib)
  {
    NodeTextLeadingZero(ts.node);
    var t := ts.(node := "0" + ts.node);
    assert t.millis == ts.millis && t.counter == ts.counter;
  }

  lemma NodeTextLeadingZero(s: string)
    requires |s| < 16
    ensures NodeText("0" + s) == NodeText(s)
  {
    var z := "0" + s;
    var a, b := NodeText(z), NodeText(s);
    assert |a| == |b| == 16;
    forall i | 0 <= i < 16
      ensures a[i] == b[i]
    {
      if i < 15 - |s| {
        assert a[i] == '0';
      } else {
        assert a[i] == a[15 - |s|..][i - (15 - |s|)] == z[i - (15 - |s|)];
        if i >= 16 - |s| {
          assert b[i] == b[16 - |s|..][i - (16 - |s|)] == s[i - (16 - |s|)];
        }
      }
    }
  }
}
