/** What a listener reads in the datagrams of a device whose configuration is printable. */
module Wire {
  import opened Wrappers
  import opened Text
  import opened Http
  import opened Target
  import opened Fields
  import opened Messages
  import opened MessageRoundTrip
  import opened DeviceSpec
  import ParserImage

  // A device UUID that can stand in a USN, alone or followed by "::".
  predicate UuidOk(uuid: Bytes) {
    && uuid != "" && FindText(uuid + ":", "::").None? && SpaceWidthAtEnd(uuid) == 0
    && CleanText("uuid:" + uuid)
  }

  predicate ConfigOk(cfg: Config) {
    UuidOk(cfg.uuid) && LocationOk(cfg.location) && OptClean(cfg.server)
  }

  predicate TargetsOk(targets: seq<AdvertEntry>) {
    forall i | 0 <= i < |targets| :: CleanText(targets[i].nt)
  }

  lemma ReparsedIsOk(nt: Bytes)
    requires CleanText(nt)
    ensures TargetOk(ReparseTarget(nt))
  {
    hide ParseTarget, CleanText;
    ParserImage.ParsedTargetIsOk(nt);
    AllIsOk();
  }

  lemma AllIsOk()
    ensures TargetOk(All)
  {
    hide ValidUtf8;
    AllIsPlain();
    AsciiIsUtf8("ssdp:all");
  }

  lemma AllIsPlain()
    ensures forall i | 0 <= i < |"ssdp:all"| :: ' ' < "ssdp:all"[i] <= '~'
  {
  }

  lemma MadeUsnIsOk(uuid: Bytes, t: Target)
    requires UuidOk(uuid) && TargetOk(t)
    ensures UsnOk(MakeUsn(uuid, t))
  {
    hide FindText, ValidUtf8, TargetText, WellFormedTarget, IsFieldChar;
    NoSeparator(uuid);
    var u := MakeUsn(uuid, t);
    if u.embedded.Some? {
      var a, b := "uuid:" + uuid, "::" + TargetText(t);
      AsciiIsUtf8("::");
      Utf8Join("::", TargetText(t));
      Utf8Join(a, b);
      assert UsnText(u) == a + b;
      TargetTextIsTrimmed(t);
      ColonIsFieldChar();
    } else {
      assert UsnText(u) == "uuid:" + uuid;
    }
  }

  lemma ColonIsFieldChar()
    ensures IsFieldChar(':')
  {
  }

  lemma HostIsClean()
    ensures CleanText(MULTICAST_HOST)
  {
    hide ValidUtf8;
    HostIsPlain();
    AsciiIsUtf8(MULTICAST_HOST);
  }

  lemma HostIsPlain()
    ensures forall i | 0 <= i < |MULTICAST_HOST| :: ' ' < MULTICAST_HOST[i] <= '~'
  {
  }

  // The wire keeps the whole seconds of a max-age.
  function OnWire(age: Nanos): Nanos {
    WireSeconds(age) * SECOND
  }

  lemma OnWireIsWhole(age: Nanos)
    ensures WholeSeconds(OnWire(age)) && MaxAgeText(OnWire(age)) == MaxAgeText(age)
  {
    hide Dec;
  }

  /** A listener reads an alive announcement as it was meant, its max-age in whole seconds. */
  lemma AliveOnWire(cfg: Config, e: AdvertEntry)
    requires ConfigOk(cfg) && CleanText(e.nt)
    ensures ParseDatagram(NotifyText(AliveFor(cfg, e)))
         == Ok(Announcement(AliveFor(cfg, e).(maxAge := Some(OnWire(e.maxAge)))))
  {
    hide ParseDatagram, CleanText, UuidOk, LocationOk, ReparseTarget, TargetOk, UsnOk, MakeUsn, OnWire, WholeSeconds,
         RenderHeaders, MaxAgeText, OptText, OptU32, OptPort, Line;
    var m := AliveFor(cfg, e).(maxAge := Some(OnWire(e.maxAge)));
    ReparsedIsOk(e.nt);
    MadeUsnIsOk(cfg.uuid, ReparseTarget(e.nt));
    HostIsClean();
    OnWireIsWhole(e.maxAge);
    NotifyParsesBack(m);
    assert NotifyHeaders(m) == NotifyHeaders(AliveFor(cfg, e));
  }

  // A byebye carries neither LOCATION nor SERVER, so only the UUID matters.
  lemma ByeByeOnWire(cfg: Config, e: AdvertEntry)
    requires UuidOk(cfg.uuid) && CleanText(e.nt)
    ensures ParseDatagram(NotifyText(ByeByeFor(cfg, e))) == Ok(Announcement(ByeByeFor(cfg, e)))
  {
    hide ParseDatagram, CleanText, UuidOk, LocationOk, ReparseTarget, TargetOk, UsnOk, MakeUsn, NotifyText;
    ReparsedIsOk(e.nt);
    MadeUsnIsOk(cfg.uuid, ReparseTarget(e.nt));
    HostIsClean();
    NotifyParsesBack(ByeByeFor(cfg, e));
  }

  lemma ReplyOnWire(cfg: Config, e: AdvertEntry, search: Target)
    requires ConfigOk(cfg) && CleanText(e.nt) && TargetOk(search)
    ensures ParseDatagram(ResponseText(ReplyFor(cfg, e, search)))
         == Ok(SearchResponse(ReplyFor(cfg, e, search).(maxAge := OnWire(e.maxAge))))
  {
    hide ParseDatagram, CleanText, UuidOk, LocationOk, ReparseTarget, TargetOk, UsnOk, MakeUsn, OnWire, WholeSeconds,
         RenderHeaders, MaxAgeText, OptText, OptU32, OptPort, Line, TargetMatches;
    var r := ReplyFor(cfg, e, search);
    var m := r.(maxAge := OnWire(e.maxAge));
    ReparsedIsOk(e.nt);
    MadeUsnIsOk(cfg.uuid, r.st);
    OnWireIsWhole(e.maxAge);
    ResponseParsesBack(m);
    assert ResponseHeaders(m) == ResponseHeaders(r);
  }

  // A registered target is stored as text that reads back as that target exactly when it is well formed.
  lemma RegisteredReadsBack(t: Target)
    requires TargetString(t).Some?
    ensures ReparseTarget(TargetString(t).value) == t <==> WellFormedTarget(t)
    ensures TargetOk(t) ==> CleanText(TargetString(t).value)
  {
    hide ParseTarget, TargetText, CleanText;
    TargetRoundTrip(t);
  }
}
