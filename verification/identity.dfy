/**
  Item identity: `simplepie_get_id` picks one natural key of an item and
  copies it into a 4096-byte buffer; `selfoss_getId` keeps a key of at most
  IDSIZE (255) bytes verbatim and replaces a longer one by the `%02x`
  rendering of its MD5 digest.
 */
module Identity {
  import opened CStrings
  import opened Hex
  import opened Feed

  /** IDSIZE: the longest identity; the caller's buffer holds IdSize + 1 bytes. */
  const IdSize: nat := 255

  /** sizeof(sp_buf), the buffer the natural key is copied into. */
  const KeyBufSize: nat := 4096

  type Digest = d: seq<Byte> | |d| == 16
    witness [0, 0, 0, 0, 0, 0, 0, 0, 0, 0, 0, 0, 0, 0, 0, 0]

  /** The MD5 digest (RFC 1321) of a byte string; its algorithm is not part of this model. */
  type Md5 = seq<Byte> -> Digest

  /** The item fields that can serve as natural key. */
  datatype KeyField = Guid | Link | EnclosureUrl | Title

  /** Priority of a key field: lower is preferred. */
  function Rank(k: KeyField): nat {
    match k
    case Guid => 0
    case Link => 1
    case EnclosureUrl => 2
    case Title => 3
  }

  function FieldOf(item: FeedItem, k: KeyField): Option<CStr> {
    match k
    case Guid => item.guid
    case Link => item.link
    case EnclosureUrl => item.enclosureUrl
    case Title => item.title
  }

  /**
    The natural key `simplepie_get_id` chooses: the present (non-NULL)
    field of best priority, whether or not it is empty.
   */
  function SelectKey(item: FeedItem): (r: Option<(KeyField, CStr)>)
    ensures r.Some? ==> FieldOf(item, r.value.0) == Some(r.value.1)
    ensures r.Some? ==> forall k :: Rank(k) < Rank(r.value.0) ==> FieldOf(item, k).None?
    ensures r.None? <==> forall k :: FieldOf(item, k).None?
  {
    if item.guid.Some? then Some((Guid, item.guid.value))
    else if item.link.Some? then Some((Link, item.link.value))
    else if item.enclosureUrl.Some? then Some((EnclosureUrl, item.enclosureUrl.value))
    else if item.title.Some? then Some((Title, item.title.value))
    else None
  }

  /**
    The key bytes `simplepie_get_id` leaves in the buffer, with the copy
    terminated after KeyBufSize - 1 bytes: the chosen field cut to at most
    4095 bytes, or nothing when no key field is present.
   */
  function SimplepieGetId(item: FeedItem): (key: CStr)
    ensures |key| < KeyBufSize
    ensures SelectKey(item).None? ==> key == []
    ensures SelectKey(item).Some? ==> key <= SelectKey(item).value.1
    ensures SelectKey(item).Some? && |SelectKey(item).value.1| < KeyBufSize ==> key == SelectKey(item).value.1
    ensures SelectKey(item).Some? ==>
      key == SelectKey(item).value.1[..Min(|SelectKey(item).value.1|, KeyBufSize - 1)]
  {
    match SelectKey(item)
    case None => []
    case Some((_, f)) => f[..Min(|f|, KeyBufSize - 1)]
  }

  /**
    `simplepie_get_id` as written: `strncpy(buf, f, sz - 1)` never writes
    buf[sz - 1], and `strnlen(buf, sz)` then reads it. `stack` is what the
    4096-byte stack buffer held before the call.
   */
  function SimplepieGetIdAsWritten(item: FeedItem, stack: seq<Byte>): (key: seq<Byte>)
    requires |stack| == KeyBufSize
    ensures |key| <= KeyBufSize
    ensures NulFree(key)
  {
    match SelectKey(item)
    case None => []
    case Some((_, f)) =>
      var buf := StrNCpy(stack, f, KeyBufSize - 1);
      buf[..StrNLen(buf, KeyBufSize)]
  }

  /**
    The code as written agrees with the terminated copy unless the chosen
    field fills the whole copy and the stale last buffer byte is not NUL.
   */
  lemma AsWrittenAgrees(item: FeedItem, stack: seq<Byte>)
    requires |stack| == KeyBufSize
    requires SelectKey(item).None? || |SelectKey(item).value.1| < KeyBufSize - 1 || stack[KeyBufSize - 1] == 0
    ensures SimplepieGetIdAsWritten(item, stack) == SimplepieGetId(item)
  {
    if SelectKey(item).Some? {
      var f := SelectKey(item).value.1;
      var k := Min(|f|, KeyBufSize - 1);
      var buf := StrNCpy(stack, f, KeyBufSize - 1);
      assert buf[k] == 0;
      assert NulFree(buf[..k]) by {
        assert buf[..k] == f[..k];
      }
      StrNLenIsFirstNul(buf, KeyBufSize, k);
    }
  }

  /**
    When the chosen field has 4095 bytes or more and the stale byte is not
    NUL, the code as written yields a 4096-byte key that ends in that
    uninitialized byte: the identity then depends on prior stack contents.
   */
  lemma AsWrittenReadsStaleByte(item: FeedItem, stack: seq<Byte>)
    requires |stack| == KeyBufSize
    requires SelectKey(item).Some? && |SelectKey(item).value.1| >= KeyBufSize - 1
    requires stack[KeyBufSize - 1] != 0
    ensures SimplepieGetIdAsWritten(item, stack) == SimplepieGetId(item) + [stack[KeyBufSize - 1]]
    ensures |SimplepieGetIdAsWritten(item, stack)| == KeyBufSize
  {
    var f := SelectKey(item).value.1;
    var buf := StrNCpy(stack, f, KeyBufSize - 1);
    assert buf[..KeyBufSize - 1] == f[..KeyBufSize - 1];
    assert buf[KeyBufSize - 1] == stack[KeyBufSize - 1];
    assert NulFree(buf[..KeyBufSize]) by {
      assert buf[..KeyBufSize] == f[..KeyBufSize - 1] + [stack[KeyBufSize - 1]];
    }
    StrNLenIsFirstNul(buf, KeyBufSize, KeyBufSize);
    assert buf[..KeyBufSize] == f[..KeyBufSize - 1] + [stack[KeyBufSize - 1]];
  }

  /** The identity and the size `selfoss_getId` returns for it. */
  datatype Id = Id(uid: CStr, size: nat)

  /**
    `selfoss_getId`: a key of at most IDSIZE bytes is the identity itself;
    a longer one is replaced by the `%02x` rendering of its MD5 digest,
    which `snprintf` never has to cut. `signedChar` says whether the
    platform's `char` is signed.
   */
  function SelfossGetId(item: FeedItem, md5: Md5, signedChar: bool): (r: Id)
    ensures |r.uid| <= IdSize
    ensures r.size == |r.uid|
    ensures |SimplepieGetId(item)| <= IdSize ==> r.uid == SimplepieGetId(item)
    ensures |SimplepieGetId(item)| > IdSize ==> r.uid == RenderDigest(md5(SimplepieGetId(item)), signedChar)
  {
    var key := SimplepieGetId(item);
    if |key| > IdSize then
      var text := RenderDigest(md5(key), signedChar);
      RenderDigestLength(md5(key), signedChar);
      RenderDigestLowerHex(md5(key), signedChar);
      var p := Snprintf(text, IdSize + 1);
      LowerHexNulFree(p.stored);
      Id(p.stored, p.returned)
    else
      Id(key, |key|)
  }

  /**
    A hashed identity is lower-case hexadecimal, at most 128 bytes, exactly
    32 bytes when no digest byte is sign-extended (always so when `char` is
    unsigned), and then it reads back as the digest of the key.
   */
  lemma HashedIdentity(item: FeedItem, md5: Md5, signedChar: bool)
    requires |SimplepieGetId(item)| > IdSize
    ensures var d := md5(SimplepieGetId(item));
      var uid := SelfossGetId(item, md5, signedChar).uid;
      && AllLowerHex(uid)
      && |uid| <= 128
      && (|uid| == 32 <==> forall i :: 0 <= i < 16 ==> !Widened(d[i], signedChar))
      && (!signedChar ==> |uid| == 32)
      && ((forall i :: 0 <= i < 16 ==> !Widened(d[i], signedChar)) ==> DecodePairs(uid) == d)
  {
    var d := md5(SimplepieGetId(item));
    RenderDigestLowerHex(d, signedChar);
    RenderDigestLength(d, signedChar);
    WideCountZero(d, signedChar);
    if forall i :: 0 <= i < 16 ==> !Widened(d[i], signedChar) {
      RenderDigestRoundTrip(d, signedChar);
    }
  }

  /**
    Only the chosen field decides the identity: two items that agree on
    every field up to and including the one chosen for the first get the
    same identity, whatever their lower-priority fields hold.
   */
  lemma ChosenFieldDecides(a: FeedItem, b: FeedItem, md5: Md5, signedChar: bool)
    requires SelectKey(a).Some?
    requires forall k :: Rank(k) <= Rank(SelectKey(a).value.0) ==> FieldOf(a, k) == FieldOf(b, k)
    ensures SelfossGetId(a, md5, signedChar) == SelfossGetId(b, md5, signedChar)
  {
    var k := SelectKey(a).value.0;
    assert FieldOf(a, Guid) == FieldOf(b, Guid);
    if k != Guid {
      assert FieldOf(a, Link) == FieldOf(b, Link);
      if k != Link {
        assert FieldOf(a, EnclosureUrl) == FieldOf(b, EnclosureUrl);
        if k != EnclosureUrl {
          assert FieldOf(a, Title) == FieldOf(b, Title);
        }
      }
    }
    assert SelectKey(a) == SelectKey(b);
  }

  /**
    Bytes past the 4095-byte cap never matter: chosen keys that agree on
    their capped prefix give the same identity.
   */
  lemma CapDecides(a: FeedItem, b: FeedItem, md5: Md5, signedChar: bool)
    requires SelectKey(a).Some? && SelectKey(b).Some?
    requires |SelectKey(a).value.1| >= KeyBufSize - 1 && |SelectKey(b).value.1| >= KeyBufSize - 1
    requires SelectKey(a).value.1[..KeyBufSize - 1] == SelectKey(b).value.1[..KeyBufSize - 1]
    ensures SelfossGetId(a, md5, signedChar) == SelfossGetId(b, md5, signedChar)
  {
    assert SimplepieGetId(a) == SimplepieGetId(b);
  }

  /**
    With a signed `char`, a digest byte of 0x80 or more prints as eight
    digits "ffffffXX": an identity whose digest starts with such a byte is
    longer than 32 bytes and begins with "ffffff".
   */
  lemma SignedCharWidens(item: FeedItem, md5: Md5)
    requires |SimplepieGetId(item)| > IdSize
    requires md5(SimplepieGetId(item))[0] >= 0x80
    ensures |SelfossGetId(item, md5, true).uid| > 32
    ensures SelfossGetId(item, md5, true).uid[..6] == SignFill
  {
    var d := md5(SimplepieGetId(item));
    RenderDigestLength(d, true);
    FormatCharArg(d[0], true);
    var uid := SelfossGetId(item, md5, true).uid;
    assert uid == Format02x(CharArg(d[0], true)) + RenderDigest(d[1..], true);
    assert uid[..6] == Format02x(CharArg(d[0], true))[..6];
  }

  /**
    Reading each digest byte as unsigned (as `unsigned char`, or on a
    platform whose `char` is unsigned) gives the intended identity for a
    long key: 32 lower-case hexadecimal digits that read back as the MD5
    digest of the key.
   */
  lemma UnsignedCharIdentity(item: FeedItem, md5: Md5)
    requires |SimplepieGetId(item)| > IdSize
    ensures |SelfossGetId(item, md5, false).uid| == 32
    ensures AllLowerHex(SelfossGetId(item, md5, false).uid)
    ensures DecodePairs(SelfossGetId(item, md5, false).uid) == md5(SimplepieGetId(item))
  {
    HashedIdentity(item, md5, false);
  }
}
