/** did:key identifiers for Ed25519 public keys. */
module DidKey {
  import opened Wrappers
  import opened Text
  import opened Hex
  import Base58

  datatype DidError = WrongKeyLength | NotADidKey | BadBase58 | WrongMulticodec

  const DID_PREFIX := "did:key:z"

  /** The ed25519-pub multicodec header. */
  const MULTICODEC: seq<byte> := [0xed, 0x01]

  function PubkeyToDidKey(pubkey: seq<byte>): Result<string, DidError> {
    if |pubkey| != 32 then Err(WrongKeyLength)
    else Ok(DID_PREFIX + Base58.Encode(MULTICODEC + pubkey))
  }

  function DidKeyToPubkey(did: string): Result<seq<byte>, DidError> {
    if !StartsWith(did, DID_PREFIX) then Err(NotADidKey)
    else match Base58.Decode(did[|DID_PREFIX|..])
      case None => Err(BadBase58)
      case Some(decoded) =>
        if !(MULTICODEC <= decoded) then Err(WrongMulticodec)
        else if |decoded[|MULTICODEC|..]| != 32 then Err(WrongKeyLength)
        else Ok(decoded[|MULTICODEC|..])
  }

  lemma PrefixDrops(p: string, s: string)
    ensures StartsWith(p + s, p) && (p + s)[|p|..] == s
  {
  }

  lemma DecodesOwn(pubkey: seq<byte>)
    requires |pubkey| == 32
    ensures DidKeyToPubkey(PubkeyToDidKey(pubkey).value) == Ok(pubkey)
  {
    var raw := MULTICODEC + pubkey;
    PrefixDrops(DID_PREFIX, Base58.Encode(raw));
    Base58.DecodeEncode(raw);
    assert raw[|MULTICODEC|..] == pubkey;
  }

  lemma DecodedParts(did: string) returns (raw: seq<byte>)
    requires DidKeyToPubkey(did).Ok?
    ensures StartsWith(did, DID_PREFIX) && Base58.Decode(did[|DID_PREFIX|..]) == Some(raw)
    ensures raw == MULTICODEC + DidKeyToPubkey(did).value && |DidKeyToPubkey(did).value| == 32
  {
    raw := Base58.Decode(did[|DID_PREFIX|..]).value;
  }

  lemma Rejoin(s: string, p: string)
    requires StartsWith(s, p)
    ensures p + s[|p|..] == s
  {
  }

  lemma EncodesBack(did: string)
    requires DidKeyToPubkey(did).Ok?
    ensures PubkeyToDidKey(DidKeyToPubkey(did).value) == Ok(did)
  {
    var raw := DecodedParts(did);
    var s := did[|DID_PREFIX|..];
    Base58.EncodeDecode(s);
    Rejoin(did, DID_PREFIX);
    Assembles(DidKeyToPubkey(did).value, raw, s);
  }

  lemma Assembles(pubkey: seq<byte>, raw: seq<byte>, s: string)
    requires |pubkey| == 32 && MULTICODEC + pubkey == raw && Base58.Encode(raw) == s
    ensures PubkeyToDidKey(pubkey) == Ok(DID_PREFIX + s)
  {
  }

  /** Encoding and decoding are mutually inverse: every 32-byte key has exactly one DID. */
  lemma DidKeyBijection(pubkey: seq<byte>, did: string)
    ensures PubkeyToDidKey(pubkey) == Ok(did) <==> DidKeyToPubkey(did) == Ok(pubkey)
  {
    if |pubkey| == 32 {
      DecodesOwn(pubkey);
    }
    if DidKeyToPubkey(did).Ok? {
      EncodesBack(did);
    }
  }
}
