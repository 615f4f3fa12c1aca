/** Shared values of the model: bytes as the decoder reads them, the
    JavaScript number and string operations the source relies on, and an
    insertion-ordered map standing for a JavaScript `Map`. */
module Common {

  /** One octet of a Node.js `Buffer`. */
  type Byte = x: int | 0 <= x < 256

  type Bytes = seq<Byte>

  datatype Option<T> = None | Some(value: T)

  /** The value of a JavaScript step that may throw an exception. */
  datatype Result<T> = Ok(value: T) | Thrown

  /** `buf[i]` in JavaScript: an index past the end yields `undefined`,
      and every bit operation the decoder applies to it yields 0. */
  function At(s: Bytes, i: int): (b: Byte)
    ensures 0 <= i < |s| ==> b == s[i]
    ensures !(0 <= i < |s|) ==> b == 0
  {
    if 0 <= i < |s| then s[i] else 0
  }

  /** `Buffer.readUInt16BE(i)`; Node throws a RangeError unless `i + 2 <= length`. */
  function U16(s: Bytes, i: nat): (v: nat)
    requires i + 2 <= |s|
    ensures v < 0x1_0000
    ensures v / 256 == s[i] && v % 256 == s[i + 1]
  {
    (s[i] as int) * 256 + s[i + 1]
  }

  /** `Buffer.readUInt32BE(i)`; Node throws a RangeError unless `i + 4 <= length`. */
  function U32(s: Bytes, i: nat): (v: nat)
    requires i + 4 <= |s|
    ensures v < 0x1_0000_0000
    ensures v / 0x1_0000 == U16(s, i) && v % 0x1_0000 == U16(s, i + 2)
  {
    U16(s, i) * 0x1_0000 + U16(s, i + 2)
  }

  /** JavaScript's ToUint32: the number modulo 2^32. */
  function ToUint32(x: int): (r: nat)
    ensures r < 0x1_0000_0000
    ensures (x - r) % 0x1_0000_0000 == 0
  {
    x % 0x1_0000_0000
  }

  /** JavaScript's ToInt32, applied by every bitwise operator: the low 32
      bits read as a two's complement number. */
  function ToInt32(x: int): (r: int)
    ensures -0x8000_0000 <= r < 0x8000_0000
    ensures (x - r) % 0x1_0000_0000 == 0
  {
    var u := ToUint32(x);
    if u < 0x8000_0000 then u else u - 0x1_0000_0000
  }

  /** The bitwise OR of two naturals. */
  function BitOr(a: nat, b: nat): nat
    decreases a + b
  {
    if a == 0 && b == 0 then 0
    else (if a % 2 == 1 || b % 2 == 1 then 1 else 0) + 2 * BitOr(a / 2, b / 2)
  }

  lemma {:induction false} BitOrZero(a: nat)
    ensures BitOr(a, 0) == a
    decreases a
  {
    if a > 0 {
      BitOrZero(a / 2);
    }
  }

  /** JavaScript's `a | b` on two numbers: both operands go through ToInt32
      and the result is a signed 32-bit number. */
  function JsOr(a: int, b: int): (r: int)
    ensures -0x8000_0000 <= r < 0x8000_0000
    ensures ToUint32(b) == 0 ==> r == ToInt32(a)
  {
    var ua, ub := ToUint32(a), ToUint32(b);
    if ub == 0 then
      BitOrZero(ua);
      assert ToUint32(ua) == ua;
      ToInt32(BitOr(ua, ub))
    else
      ToInt32(BitOr(ua, ub))
  }

  /** Concatenation of a sequence of byte strings (`Buffer.concat`). */
  function Concat(parts: seq<Bytes>): (r: Bytes)
    ensures parts == [] ==> r == []
  {
    if parts == [] then [] else Concat(parts[..|parts| - 1]) + parts[|parts| - 1]
  }

  lemma {:induction false} ConcatAppend(parts: seq<Bytes>, last: Bytes)
    ensures Concat(parts + [last]) == Concat(parts) + last
  {
    assert (parts + [last])[..|parts|] == parts;
  }

  lemma {:induction false} ConcatSplit(a: seq<Bytes>, b: seq<Bytes>)
    ensures Concat(a + b) == Concat(a) + Concat(b)
    decreases |b|
  {
    if b == [] {
      assert a + b == a;
    } else {
      var init := b[..|b| - 1];
      var last := b[|b| - 1];
      assert a + b == (a + init) + [last];
      ConcatAppend(a + init, last);
      ConcatSplit(a, init);
      assert b == init + [last];
      ConcatAppend(init, last);
    }
  }

  /** The characters matched by `\s` in a JavaScript regular expression and
      removed by `String.prototype.trim`: WhiteSpace and LineTerminator. */
  predicate IsJsSpace(c: char) {
    c == '\t' || c == '\n' || c == '\U{000B}' || c == '\U{000C}' || c == '\r' || c == ' '
    || c == '\U{00A0}' || c == '\U{1680}' || ('\U{2000}' <= c <= '\U{200A}')
    || c == '\U{2028}' || c == '\U{2029}' || c == '\U{202F}' || c == '\U{205F}'
    || c == '\U{3000}' || c == '\U{FEFF}'
  }

  predicate AllSpace(s: string) {
    forall i :: 0 <= i < |s| ==> IsJsSpace(s[i])
  }

  /** Length of the longest whitespace prefix. */
  function LeadingSpace(s: string): (n: nat)
    ensures n <= |s| && AllSpace(s[..n])
    ensures n < |s| ==> !IsJsSpace(s[n])
  {
    if s == [] || !IsJsSpace(s[0]) then 0
    else
      var k := LeadingSpace(s[1..]);
      assert s[..k + 1] == [s[0]] + s[1..][..k];
      k + 1
  }

  /** Length of the longest whitespace suffix. */
  function TrailingSpace(s: string): (n: nat)
    ensures n <= |s| && AllSpace(s[|s| - n..])
    ensures n < |s| ==> !IsJsSpace(s[|s| - n - 1])
  {
    if s == [] || !IsJsSpace(s[|s| - 1]) then 0
    else
      var last := |s| - 1;
      var init := s[..last];
      var k := TrailingSpace(init);
      var m := last - k;
      assert s[m..] == init[m..] + [s[last]];
      AllSpaceSnoc(init[m..], s[last]);
      assert m > 0 ==> s[m - 1] == init[m - 1];
      k + 1
  }

  lemma AllSpaceSnoc(w: string, c: char)
    requires AllSpace(w) && IsJsSpace(c)
    ensures AllSpace(w + [c])
  {
    assert forall i :: 0 <= i < |w| ==> (w + [c])[i] == w[i];
  }

  /** `String.prototype.trim`. */
  function Trim(s: string): (r: string)
    ensures r == [] || (!IsJsSpace(r[0]) && !IsJsSpace(r[|r| - 1]))
    ensures exists i, j :: 0 <= i <= j <= |s| && r == s[i..j] && AllSpace(s[..i]) && AllSpace(s[j..])
  {
    var a := LeadingSpace(s);
    var rest := s[a..];
    var b := TrailingSpace(rest);
    assert s[a..][..|rest| - b] == s[a..a + |rest| - b];
    assert rest[|rest| - b..] == s[a + |rest| - b..];
    rest[..|rest| - b]
  }

  /** ASCII part of `String.prototype.toLowerCase`. */
  function LowerChar(c: char): char {
    if 'A' <= c <= 'Z' then (c as int + 32) as char else c
  }

  /** ASCII part of `String.prototype.toUpperCase`. */
  function UpperChar(c: char): char {
    if 'a' <= c <= 'z' then (c as int - 32) as char else c
  }

  function Lower(s: string): (r: string)
    ensures |r| == |s| && forall i :: 0 <= i < |s| ==> r[i] == LowerChar(s[i])
  {
    seq(|s|, i requires 0 <= i < |s| => LowerChar(s[i]))
  }

  function Upper(s: string): (r: string)
    ensures |r| == |s| && forall i :: 0 <= i < |s| ==> r[i] == UpperChar(s[i])
  {
    seq(|s|, i requires 0 <= i < |s| => UpperChar(s[i]))
  }

  /** A JavaScript `Map`: keys in insertion order, each once, with their
      current values. `set` on a present key replaces the value in place. */
  datatype JsMap<K(==), V> = JsMap(keys: seq<K>, values: map<K, V>) {

    ghost predicate Valid() {
      && (forall i, j :: 0 <= i < j < |keys| ==> keys[i] != keys[j])
      && values.Keys == set k | k in keys
    }

    function Size(): nat { |keys| }

    function Set(k: K, v: V): (m: JsMap<K, V>)
      requires Valid()
      ensures m.Valid()
      ensures m.values == values[k := v]
      ensures k in values ==> m.keys == keys
      ensures k !in values ==> m.keys == keys + [k]
    {
      if k in values then JsMap(keys, values[k := v]) else JsMap(keys + [k], values[k := v])
    }

    /** `[...m.values()]`. */
    function ValueList(): (vs: seq<V>)
      requires Valid()
      ensures |vs| == |keys| && forall i :: 0 <= i < |keys| ==> vs[i] == values[keys[i]]
    {
      seq(|keys|, i requires 0 <= i < |keys| => values[keys[i]])
    }
  }

  function EmptyJsMap<K(==), V>(): (m: JsMap<K, V>)
    ensures m.Valid() && m.keys == [] && m.values == map[]
  {
    JsMap([], map[])
  }
}
