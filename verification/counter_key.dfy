/**
 * The store key of a counter: `"count-"` followed by the request path's
 * UTF-8 bytes, each written as the character whose code is the byte
 * (`String.fromCharCode` over the encoder's output). Although the source
 * calls this conversion "base64", it is a byte-for-byte "binary string".
 */
module CounterKey {
  import opened Wrappers
  import Utf8

  /** The namespace every counter key starts with. */
  const Prefix: string := "count-"

  /** One character per byte, with character code equal to the byte value. */
  function BinaryString(bs: seq<Utf8.byte>): (s: string)
    ensures |s| == |bs|
    ensures forall i :: 0 <= i < |bs| ==> s[i] as int == bs[i]
  {
    if bs == [] then [] else [bs[0] as char] + BinaryString(bs[1..])
  }

  /** Reads the bytes back from a binary string; None if some character is above U+00FF. */
  function BinaryStringBytes(s: string): (r: Option<seq<Utf8.byte>>)
    ensures r.Some? <==> forall i :: 0 <= i < |s| ==> s[i] as int < 256
    ensures r.Some? ==> |r.value| == |s| && forall i :: 0 <= i < |s| ==> r.value[i] == s[i] as int
    ensures r.Some? ==> BinaryString(r.value) == s
  {
    if s == [] then Some([])
    else if s[0] as int >= 256 then None
    else
      match BinaryStringBytes(s[1..])
      case None => None
      case Some(rest) => Some([s[0] as int as Utf8.byte] + rest)
  }

  /** Reading a binary string back gives the bytes it was written from. */
  lemma BinaryStringRoundTrip(bs: seq<Utf8.byte>)
    ensures BinaryStringBytes(BinaryString(bs)) == Some(bs)
  {
    var r := BinaryStringBytes(BinaryString(bs));
    assert r.Some?;
    assert r.value == bs;
  }

  /** The path part of the key (`convertToBase64` in the worker). */
  function PathKey(path: string): (k: string)
    ensures |path| <= |k| <= 4 * |path|
    ensures |k| == |Utf8.Encode(path)|
    ensures forall i :: 0 <= i < |k| ==> k[i] as int == Utf8.Encode(path)[i]
  {
    BinaryString(Utf8.Encode(path))
  }

  /** The key under which the counter of `path` is stored. */
  function StoreKey(path: string): (k: string)
    ensures |k| == |Prefix| + |PathKey(path)|
    ensures k[..|Prefix|] == Prefix
    ensures k[|Prefix|..] == PathKey(path)
  {
    Prefix + PathKey(path)
  }

  /** Recovers the path from a store key; None for keys this worker never writes. */
  function PathOf(k: string): (p: Option<string>) {
    if |k| < |Prefix| || k[..|Prefix|] != Prefix then None
    else
      match BinaryStringBytes(k[|Prefix|..])
      case None => None
      case Some(bs) => Utf8.Decode(bs)
  }

  /** A store key names the path it was built from. */
  lemma PathOfStoreKey(path: string)
    ensures PathOf(StoreKey(path)) == Some(path)
  {
    var k := StoreKey(path);
    assert k[|Prefix|..] == PathKey(path);
    BinaryStringRoundTrip(Utf8.Encode(path));
    Utf8.DecodeEncode(path);
  }

  /** Every key that names a path is that path's store key. */
  lemma StoreKeyOfPathOf(k: string)
    requires PathOf(k).Some?
    ensures StoreKey(PathOf(k).value) == k
  {
    var bs := BinaryStringBytes(k[|Prefix|..]).value;
    Utf8.EncodeDecode(bs);
    assert PathKey(PathOf(k).value) == k[|Prefix|..];
    assert k == k[..|Prefix|] + k[|Prefix|..];
  }

  /** Distinct paths never share a counter. */
  lemma StoreKeyInjective(p: string, q: string)
    ensures StoreKey(p) == StoreKey(q) <==> p == q
  {
    if StoreKey(p) == StoreKey(q) {
      PathOfStoreKey(p);
      PathOfStoreKey(q);
    }
  }

  /** `/a` and `/ab` get different counters although one path is a prefix of the other. */
  lemma PrefixPathsApart()
    ensures StoreKey("/a") != StoreKey("/ab")
  {
    StoreKeyInjective("/a", "/ab");
  }
}
