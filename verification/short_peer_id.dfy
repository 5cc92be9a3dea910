/** The display label of a peer: the first eight bytes of its id and an ellipsis. */
module ShortPeerIds {
  import opened Wrappers
  import opened Text

  /**
   * The text form of a libp2p peer id. It is the base58 rendering of a
   * multihash, so it is ASCII and far longer than eight characters.
   */
  type PeerId = s: string | IsAscii(s) && |s| >= 8 witness "12D3KooW"

  datatype ShortPeerId = ShortPeerId(name: string)

  const Ellipsis: string := "..."

  /**
   * `format!("{}...", &text[..8])` on arbitrary text: `None` where the byte
   * slice would panic.
   */
  function TryFrom(text: string): (r: Option<ShortPeerId>)
    ensures r.Some? ==>
      && |r.value.name| >= 3
      && r.value.name[..|r.value.name| - 3] <= text
      && Utf8Length(r.value.name[..|r.value.name| - 3]) == 8
      && r.value.name[|r.value.name| - 3..] == Ellipsis
  {
    match BytePrefix(text, 8)
    case Some(head) =>
      assert (head + Ellipsis)[..|head|] == head;
      Some(ShortPeerId(head + Ellipsis))
    case None => None
  }

  /** The slice panics exactly when no prefix of the text is eight bytes long. */
  lemma TryFromPanics(text: string)
    ensures TryFrom(text).None? <==> forall k :: 0 <= k <= |text| ==> Utf8Length(text[..k]) != 8
  {
    if TryFrom(text).None? {
      forall k | 0 <= k <= |text| ensures Utf8Length(text[..k]) != 8 {
        BytePrefixSpec(text, 8, text[..k]);
      }
    } else {
      var head := BytePrefix(text, 8).value;
      assert text[..|head|] == head;
    }
  }

  /** On ASCII text the label is the first eight characters and three dots. */
  lemma TryFromAscii(text: string)
    requires IsAscii(text)
    ensures TryFrom(text).Some? <==> |text| >= 8
    ensures |text| >= 8 ==> TryFrom(text) == Some(ShortPeerId(text[..8] + Ellipsis))
  {
    AsciiBytePrefix(text, 8);
  }

  /** `ShortPeerId::from` on a real peer id, which never panics. */
  function From(p: PeerId): (r: ShortPeerId)
    ensures r.name == p[..8] + Ellipsis
    ensures |r.name| == 11
  {
    TryFromAscii(p);
    TryFrom(p).value
  }

  /** Two peers get the same label exactly when their ids share the first eight characters. */
  lemma FromEqualIff(p: PeerId, q: PeerId)
    ensures From(p) == From(q) <==> p[..8] == q[..8]
  {
    if From(p) == From(q) {
      assert p[..8] == From(p).name[..8];
      assert q[..8] == From(q).name[..8];
    }
  }

  /** The label does not identify the peer: distinct ids can share it. */
  lemma FromNotInjective()
    ensures exists p: PeerId, q: PeerId :: p != q && From(p) == From(q)
  {
    var p: PeerId := "12D3KooWAlpha";
    var q: PeerId := "12D3KooWBravo";
    assert p != q by { assert p[8] != q[8]; }
    FromEqualIff(p, q);
    assert p[..8] == q[..8];
  }

  /** `Display for ShortPeerId`: the stored label, unchanged. */
  function Render(s: ShortPeerId): (r: string)
    ensures ShortPeerId(r) == s
  {
    s.name
  }
}
