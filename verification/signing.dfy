/** The segment-to-bytes serialisation of `hmacSha256BySegments`: an
    ordered list of slots, each a string or absent, is fed to one HMAC
    accumulator with a single zero byte before every slot but the first.
    Incremental `update` calls on an HMAC equal one HMAC over the
    concatenated bytes, so the accumulator is modelled as the byte string
    it has seen, `Message`, and the HMAC itself as a function parameter.
    A present slot carries the bytes `Buffer.from` gives its string. */
module Signing {
  import opened Wrappers
  import Utf8
  import Hex

  /** A signing slot: the UTF-8 bytes of a string, or `null`. */
  datatype Segment = Present(bytes: seq<byte>) | Absent

  /** An HMAC-SHA256 digest is 32 bytes. */
  type Digest = d: seq<byte> | |d| == 32 witness seq(32, _ => 0 as byte)

  /** The bytes a slot contributes, without its separator. */
  function SegmentBytes(s: Segment): seq<byte> {
    match s
    case Present(b) => b
    case Absent => []
  }

  /** The bytes of every slot in order, separators left out. */
  function Contents(segs: seq<Segment>): (r: seq<seq<byte>>)
    ensures |r| == |segs|
  {
    if |segs| == 0 then [] else [SegmentBytes(segs[0])] + Contents(segs[1..])
  }

  /** The total byte length of the present slots. */
  function ContentLength(segs: seq<Segment>): nat {
    if |segs| == 0 then 0 else |SegmentBytes(segs[0])| + ContentLength(segs[1..])
  }

  /** True when no slot carries a zero byte, so no slot content can read
      as a separator. */
  predicate ZeroFree(segs: seq<Segment>) {
    forall i :: 0 <= i < |segs| && segs[i].Present? ==> 0 !in segs[i].bytes
  }

  /** The byte string the accumulator has absorbed after all the slots: the
      slot contents joined by single zero bytes. */
  function Message(segs: seq<Segment>): seq<byte>
  {
    if |segs| == 0 then []
    else if |segs| == 1 then SegmentBytes(segs[0])
    else SegmentBytes(segs[0]) + [0] + Message(segs[1..])
  }

  /** The slots of a signing input, a list of strings and `null`s, as the
      bytes `Buffer.from` gives each string. */
  function Encoded(input: seq<Option<string>>): (segs: seq<Segment>)
    ensures |segs| == |input|
    ensures forall i :: 0 <= i < |input| ==> (segs[i] == Absent <==> input[i] == None)
    ensures forall i :: 0 <= i < |input| && input[i].Some? ==> segs[i] == Present(Utf8.Encode(input[i].value))
    ensures forall i :: 0 <= i < |input| && input[i].Some? ==> Utf8.Decode(SegmentBytes(segs[i])) == input[i]
  {
    assert forall x: string :: Utf8.Decode(Utf8.Encode(x)) == Some(x) by {
      forall x: string ensures Utf8.Decode(Utf8.Encode(x)) == Some(x) {
        Utf8.DecodeEncode(x);
      }
    }
    seq(|input|, i requires 0 <= i < |input| =>
      if input[i].Some? then Present(Utf8.Encode(input[i].value)) else Absent)
  }

  /** The signing loop of lines 68-76: visit the slots by index, feed a zero
      byte unless the index is 0, then feed the slot's bytes unless it is
      `null`. */
  method AccumulateSegments(input: seq<Option<string>>) returns (m: seq<byte>)
    ensures m == Message(Encoded(input))
  {
    ghost var segs := Encoded(input);
    m := [];
    var index := 0;
    while index < |input|
      invariant 0 <= index <= |input|
      invariant m == Message(segs[..index])
    {
      if index != 0 {
        m := m + [0];
      }
      if input[index] != None {
        m := m + Utf8.Encode(input[index].value);
      }
      if index != 0 {
        MessageSnoc(segs[..index], segs[index]);
      }
      assert segs[..index + 1] == segs[..index] + [segs[index]];
      index := index + 1;
    }
    assert segs[..|segs|] == segs;
  }

  /** `hmacSha256BySegments`: the hex digest, keyed by the UTF-8 bytes of
      the secret, of the accumulated slots. */
  method HmacSha256BySegments(secret: string, input: seq<Option<string>>,
                              hmac: (seq<byte>, seq<byte>) -> Digest)
    returns (hex: string)
    ensures |hex| == 64
    ensures forall i :: 0 <= i < |hex| ==> Hex.IsHexChar(hex[i])
    ensures Hex.Unhex(hex) == Some(hmac(Utf8.Encode(secret), Message(Encoded(input))))
  {
    var m := AccumulateSegments(input);
    hex := Hex.Hex(hmac(Utf8.Encode(secret), m));
    Hex.UnhexHex(hmac(Utf8.Encode(secret), m));
  }

  /** Appending a slot to a non-empty list appends one zero byte and the
      slot's bytes: exactly one loop iteration. */
  lemma {:induction false} MessageSnoc(segs: seq<Segment>, s: Segment)
    requires |segs| > 0
    ensures Message(segs + [s]) == Message(segs) + [0] + SegmentBytes(s)
    decreases |segs|
  {
    if |segs| > 1 {
      assert (segs + [s])[1..] == segs[1..] + [s];
      MessageSnoc(segs[1..], s);
    } else {
      assert (segs + [s])[1..] == [s];
    }
  }

  /** One more slot of a prefix: one separator and that slot's bytes. */
  lemma PrefixStep(s: seq<Segment>, k: nat, m: seq<byte>) returns (m': seq<byte>)
    requires 0 < k < |s| && m == Message(s[..k])
    ensures m' == Message(s[..k + 1]) && m' == m + [0] + SegmentBytes(s[k])
  {
    m' := m + [0] + SegmentBytes(s[k]);
    MessageSnoc(s[..k], s[k]);
    assert s[..k + 1] == s[..k] + [s[k]];
  }

  /** The first slot is fed with no separator before it. */
  lemma MessageFirst(segs: seq<Segment>)
    requires |segs| > 0
    ensures Message(segs)[..|SegmentBytes(segs[0])|] == SegmentBytes(segs[0])
    ensures |segs| > 1 ==> Message(segs)[|SegmentBytes(segs[0])|] == 0
  {
  }

  /** Splitting the slot list anywhere splits the message at one zero byte:
      every slot after the first costs exactly one separator. */
  lemma {:induction false} MessageConcat(a: seq<Segment>, b: seq<Segment>)
    requires |a| > 0 && |b| > 0
    ensures Message(a + b) == Message(a) + [0] + Message(b)
    decreases |a|
  {
    if |a| == 1 {
      assert (a + b)[1..] == b;
    } else {
      assert (a + b)[1..] == a[1..] + b;
      MessageConcat(a[1..], b);
    }
  }

  /** The message is as long as the present contents plus one separator per
      slot after the first, absent slots included. */
  lemma {:induction false} MessageLength(segs: seq<Segment>)
    requires |segs| > 0
    ensures |Message(segs)| == ContentLength(segs) + |segs| - 1
  {
    if |segs| > 1 {
      MessageLength(segs[1..]);
    }
  }

  /** An absent slot and an empty-string slot give identical bytes: each
      contributes its separator only. */
  lemma {:induction false} AbsentLikeEmpty(segs: seq<Segment>, i: nat)
    requires i < |segs| && segs[i] == Absent
    ensures Message(segs[i := Present([])]) == Message(segs)
  {
    if i > 0 {
      assert segs[i := Present([])][1..] == segs[1..][i - 1 := Present([])];
      AbsentLikeEmpty(segs[1..], i - 1);
    }
  }

  /** At the level of the signing input: a `null` slot and an empty string
      sign identically. */
  lemma NullLikeEmptyString(input: seq<Option<string>>, i: nat)
    requires i < |input| && input[i] == None
    ensures Message(Encoded(input[i := Some("")])) == Message(Encoded(input))
  {
    assert Utf8.Encode("") == [];
    assert Encoded(input[i := Some("")]) == Encoded(input)[i := Present([])];
    AbsentLikeEmpty(Encoded(input), i);
  }

  /** The zero-separated fields of a byte string, as a verifier that knows
      the slot count would cut it; there is always at least one field. */
  function Fields(m: seq<byte>): (r: seq<seq<byte>>)
    ensures |r| >= 1
  {
    if |m| == 0 then [[]]
    else if m[0] == 0 then [[]] + Fields(m[1..])
    else
      var rest := Fields(m[1..]);
      [[m[0]] + rest[0]] + rest[1..]
  }

  lemma {:induction false} FieldsOfZeroFree(a: seq<byte>)
    requires 0 !in a
    ensures Fields(a) == [a]
  {
    if |a| > 0 {
      FieldsOfZeroFree(a[1..]);
      assert [a[0]] + a[1..] == a;
    }
  }

  lemma {:induction false} FieldsAfterSeparator(a: seq<byte>, b: seq<byte>)
    requires 0 !in a
    ensures Fields(a + [0] + b) == [a] + Fields(b)
  {
    if |a| == 0 {
      assert a + [0] + b == [0] + b;
      assert ([0] + b)[1..] == b;
    } else {
      assert (a + [0] + b)[1..] == a[1..] + [0] + b;
      FieldsAfterSeparator(a[1..], b);
      assert [a[0]] + a[1..] == a;
    }
  }

  /** Cutting the message at its zero bytes gives back the slot contents
      when no slot holds a zero byte: the separators sit exactly between
      slots. */
  lemma {:induction false} FieldsOfMessage(segs: seq<Segment>)
    requires |segs| > 0 && ZeroFree(segs)
    ensures Fields(Message(segs)) == Contents(segs)
  {
    if |segs| == 1 {
      FieldsOfZeroFree(SegmentBytes(segs[0]));
    } else {
      assert ZeroFree(segs[1..]) by {
        forall i | 0 <= i < |segs| - 1 && segs[1..][i].Present?
          ensures 0 !in segs[1..][i].bytes
        {
          assert segs[1..][i] == segs[i + 1];
        }
      }
      FieldsAfterSeparator(SegmentBytes(segs[0]), Message(segs[1..]));
      FieldsOfMessage(segs[1..]);
    }
  }
}
