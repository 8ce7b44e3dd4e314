/** Authorization digests over argument lists that end at the first empty chunk. */
module Hmac {
  import opened Bytes

  /** HMAC as section 2 of RFC 2104 defines it over a key and a text. */
  type Mac = (seq<byte>, seq<byte>) -> Digest

  /** One (length, pointer) pair of an argument list. */
  datatype Chunk = Chunk(data: seq<byte>) | Null(len: uint32) {
    predicate Ends() {
      if Chunk? then data == [] else len == 0
    }
  }

  /** The bytes of all the chunks. */
  function Concat(chunks: seq<seq<byte>>): seq<byte> {
    if chunks == [] then [] else chunks[0] + Concat(chunks[1..])
  }

  /** What a list feeds into a digest: the chunks before the first empty one. */
  function Fed(chunks: seq<Chunk>): seq<byte> {
    if chunks == [] || chunks[0].Ends() then []
    else (if chunks[0].Chunk? then chunks[0].data else []) + Fed(chunks[1..])
  }

  /** A null pointer with a length is met before the list ends. */
  predicate MeetsNull(chunks: seq<Chunk>) {
    chunks != [] && !chunks[0].Ends() && (chunks[0].Null? || MeetsNull(chunks[1..]))
  }

  function AsChunks(parts: seq<seq<byte>>): seq<Chunk> {
    seq(|parts|, i requires 0 <= i < |parts| => Chunk(parts[i]))
  }

  /** No empty part stands before a non-empty one. */
  predicate EmptyPartsLast(parts: seq<seq<byte>>) {
    forall i, j :: 0 <= i < j < |parts| && parts[j] != [] ==> parts[i] != []
  }

  lemma AsChunksTail(parts: seq<seq<byte>>)
    requires parts != []
    ensures AsChunks(parts)[1..] == AsChunks(parts[1..]) && AsChunks(parts)[0] == Chunk(parts[0])
  {
  }

  lemma NothingLeft(parts: seq<seq<byte>>)
    ensures Concat(parts) == [] <==> forall i :: 0 <= i < |parts| ==> parts[i] == []
  {
  }

  /** A list of parts is digested whole exactly when no empty part stands before another. */
  lemma {:induction false} FedWholeExactly(parts: seq<seq<byte>>)
    ensures Fed(AsChunks(parts)) == Concat(parts) <==> EmptyPartsLast(parts)
  {
    if parts != [] {
      AsChunksTail(parts);
      var rest := parts[1..];
      if parts[0] == [] {
        NothingLeft(rest);
        assert EmptyPartsLast(parts) <==> forall i :: 0 <= i < |rest| ==> rest[i] == [];
      } else {
        FedWholeExactly(rest);
        assert EmptyPartsLast(parts) <==> EmptyPartsLast(rest) by {
          assert forall i :: 0 <= i < |rest| ==> rest[i] == parts[i + 1];
          if EmptyPartsLast(rest) {
            forall i, j | 0 <= i < j < |parts| && parts[j] != [] ensures parts[i] != [] {
              if i > 0 {
                assert rest[j - 1] != [];
              }
            }
          }
          if EmptyPartsLast(parts) {
            forall i, j | 0 <= i < j < |rest| && rest[j] != [] ensures rest[i] != [] {
              assert parts[j + 1] != [];
            }
          }
        }
        assert Fed(AsChunks(parts)) == parts[0] + Fed(AsChunks(rest));
        if parts[0] + Fed(AsChunks(rest)) == parts[0] + Concat(rest) {
          SplitConcat(parts[0], Fed(AsChunks(rest)), parts[0], Concat(rest));
        }
      }
    }
  }

  /** A list that is not: an empty part hides the byte behind it. */
  lemma EmptyPartHides()
    ensures Concat([[], [1]]) == [1] && Fed(AsChunks([[], [1]])) == []
  {
  }

  method RawHmac(mac: Mac, key: seq<byte>, chunks: seq<Chunk>) returns (ret: uint32, digest: Digest)
    ensures MeetsNull(chunks) ==> ret == ERR_NULL_ARG
    ensures !MeetsNull(chunks) ==> ret == 0 && digest == mac(key, Fed(chunks))
  {
    var fed, i := [], 0;
    digest := ZERO_DIGEST;
    while i < |chunks| && !chunks[i].Ends()
      invariant 0 <= i <= |chunks|
      invariant fed + Fed(chunks[i..]) == Fed(chunks)
      invariant MeetsNull(chunks[i..]) <==> MeetsNull(chunks)
    {
      if chunks[i].Null? {
        return ERR_NULL_ARG, digest;
      }
      fed := fed + chunks[i].data;
      i := i + 1;
    }
    assert Fed(chunks[i..]) == [] && fed + [] == fed;
    return 0, mac(key, fed);
  }

  /** The digest of an authorized command: HMAC of the parameter digest, both nonces and the
      continue flag. */
  function CommandMac(sha1: Hash, mac: Mac, key: seq<byte>, parms: seq<byte>, even: Digest, odd: Digest, cont: byte)
    : Digest
  {
    mac(key, sha1(parms) + even + odd + [cont])
  }

  method AuthHmac(sha1: Hash, mac: Mac, key: seq<byte>, even: Digest, odd: Digest, cont: byte, chunks: seq<Chunk>)
    returns (ret: uint32, digest: Digest)
    ensures MeetsNull(chunks) ==> ret == ERR_NULL_ARG
    ensures !MeetsNull(chunks) ==> ret == 0 && digest == CommandMac(sha1, mac, key, Fed(chunks), even, odd, cont)
  {
    var fed, i := [], 0;
    digest := ZERO_DIGEST;
    while i < |chunks| && !chunks[i].Ends()
      invariant 0 <= i <= |chunks|
      invariant fed + Fed(chunks[i..]) == Fed(chunks)
      invariant MeetsNull(chunks[i..]) <==> MeetsNull(chunks)
    {
      if chunks[i].Null? {
        return ERR_NULL_ARG, digest;
      }
      fed := fed + chunks[i].data;
      i := i + 1;
    }
    assert Fed(chunks[i..]) == [] && fed + [] == fed;
    ret, digest := RawHmac(mac, key, [Chunk(sha1(fed)), Chunk(even), Chunk(odd), Chunk([cont])]);
    FourChunks(sha1(fed), even, odd, [cont]);
  }

  lemma FourChunks(a: seq<byte>, b: seq<byte>, c: seq<byte>, d: seq<byte>)
    requires a != [] && b != [] && c != [] && d != []
    ensures var chunks := [Chunk(a), Chunk(b), Chunk(c), Chunk(d)];
            !MeetsNull(chunks) && Fed(chunks) == a + b + c + d
  {
    var chunks := [Chunk(a), Chunk(b), Chunk(c), Chunk(d)];
    assert chunks[1..][1..] == [Chunk(c), Chunk(d)] && chunks[1..][1..][1..] == [Chunk(d)];
    assert Fed([Chunk(d)]) == d && !MeetsNull([Chunk(d)]);
    assert Fed([Chunk(c), Chunk(d)]) == c + d && !MeetsNull([Chunk(c), Chunk(d)]);
  }
}
