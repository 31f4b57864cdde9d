/**
 SDPData::parse: which part of the description a line belongs to, and which media entry an
 attribute line changes. What the regular expressions find in a line comes as a record.
 */
module SdpData {
  import opened Common
  import opened LineCursor

  datatype Attribute = MediaTypeName | CodecType | TimeRate | ChannelNum | PackMode | AttrSps | AttrPps | AttrVps

  type Format = map<Attribute, string>

  datatype MediaInfo = MediaInfo(mediaType: string, ports: string, transProt: string, fmtMap: map<int, Format>, controlUri: string)

  /** A token, and what reading it as a number gives. */
  datatype Token = Token(text: string, number: int)

  /** The media type of an m= line is its first token, which may be missing, the next two are ports and protocol, and the rest payload ids. */
  datatype MediaLine = MediaLine(tokens: seq<Token>) {
    function Text(i: nat): Option<string> {
      if i < |tokens| then Some(tokens[i].text) else None
    }

    function MediaType(): string {
      if tokens == [] then "" else tokens[0].text
    }

    function Payloads(): seq<int> {
      Numbers(if |tokens| < 3 then [] else tokens[3..])
    }
  }

  function Numbers(tokens: seq<Token>): (r: seq<int>)
    ensures |r| == |tokens|
  {
    if tokens == [] then [] else [tokens[0].number] + Numbers(tokens[1..])
  }

  datatype Rtpmap = Rtpmap(id: int, codec: string, rate: string, channels: Option<string>)
  datatype FmtpH265 = FmtpH265(id: int, vps: string, sps: string, pps: string)
  datatype FmtpH264 = FmtpH264(id: int, mode: string, sps: string, pps: string)

  /** For each of the four attribute expressions, what it finds. */
  datatype AttrLine = AttrLine(rtpmap: Option<Rtpmap>, h265: Option<FmtpH265>, h264: Option<FmtpH264>, control: Option<string>)

  /** A line that the key=value expression rejects, or its key and the readings of its value. */
  datatype Record =
    | NoMatch
    | Field(key: char, text: string, origin: bool, connection: bool, time: bool, media: MediaLine, attr: AttrLine)

  /** The session-level fields; origin, connection and time keep the text that was split. */
  datatype SessionInfo = SessionInfo(name: string, version: string, origin: string, connection: string, time: string)

  datatype Part = InSession | InMedia | InTime

  /** What the loop carries from line to line: the part it is in, the entry the current-media pointer refers to, and the fields. */
  datatype State = State(part: Part, current: Option<string>, session: SessionInfo, media: map<string, MediaInfo>)

  const NO_MEDIA := MediaInfo("", "", "", map[], "")

  function PartAfter(part: Part, key: char): Part {
    match key
    case 's' => InSession
    case 'm' => InMedia
    case 't' => InTime
    case _ => part
  }

  function SessionAfter(s: SessionInfo, r: Record): SessionInfo
    requires r.Field?
  {
    match r.key
    case 's' => s.(name := r.text)
    case 'v' => s.(version := r.text)
    case 'o' =>
      var t := if r.origin then s.(origin := r.text) else s;
      if r.connection then t.(connection := r.text) else t
    case _ => s
  }

  function AddPayloads(formats: map<int, Format>, ids: seq<int>, mediaType: string): (r: map<int, Format>)
    ensures r.Keys == formats.Keys + set i | i in ids
    ensures Carries(formats, mediaType) ==> Carries(r, mediaType)
    decreases |ids|
  {
    if ids == [] then formats
    else
      var f := if ids[0] in formats then formats[ids[0]] else map[];
      AddPayloads(formats[ids[0] := f[MediaTypeName := mediaType]], ids[1..], mediaType)
  }

  function OpenMedia(media: map<string, MediaInfo>, m: MediaLine): map<string, MediaInfo> {
    var entry := if m.MediaType() in media then media[m.MediaType()] else NO_MEDIA;
    var ports := if m.Text(1).Some? then m.Text(1).value else entry.ports;
    var transProt := if m.Text(2).Some? then m.Text(2).value else entry.transProt;
    media[m.MediaType() := MediaInfo(m.MediaType(), ports, transProt,
                                   AddPayloads(entry.fmtMap, m.Payloads(), m.MediaType()), entry.controlUri)]
  }

  /** The four expressions in the order in which they are tried; the first that matches decides. */
  function ApplyAttr(e: MediaInfo, a: AttrLine): MediaInfo {
    if a.rtpmap.Some? then
      var v := a.rtpmap.value;
      if v.id in e.fmtMap then
        var channels := if v.channels.Some? then v.channels.value else "1";
        e.(fmtMap := e.fmtMap[v.id := e.fmtMap[v.id][CodecType := v.codec][TimeRate := v.rate][ChannelNum := channels]])
      else e
    else if e.mediaType == "video" && a.h265.Some? then
      var v := a.h265.value;
      if v.id in e.fmtMap then
        e.(fmtMap := e.fmtMap[v.id := e.fmtMap[v.id][AttrVps := v.vps][AttrSps := v.sps][AttrPps := v.pps]])
      else e
    else if e.mediaType == "video" && a.h264.Some? then
      var v := a.h264.value;
      if v.id in e.fmtMap then
        e.(fmtMap := e.fmtMap[v.id := e.fmtMap[v.id][PackMode := v.mode][AttrSps := v.sps][AttrPps := v.pps]])
      else e
    else if a.control.Some? then e.(controlUri := a.control.value)
    else e
  }

  /** Every entry is filed under its own type, which each of its payload ids carries. */
  predicate Filed(media: map<string, MediaInfo>) {
    && (forall k :: k in media ==> media[k].mediaType == k)
    && (forall k :: k in media ==> Carries(media[k].fmtMap, k))
  }

  predicate Carries(formats: map<int, Format>, mediaType: string) {
    forall id :: id in formats ==> MediaTypeName in formats[id] && formats[id][MediaTypeName] == mediaType
  }

  /** What every line keeps: that, and in the media part the pointer is set. */
  predicate Consistent(s: State) {
    && Filed(s.media)
    && (s.part == InMedia ==> s.current.Some?)
    && (s.current.Some? ==> s.current.value in s.media)
  }

  /** One turn of the loop. Reading the pointer in the media part is safe because it is set there. */
  function Step(s: State, r: Record): State
    requires Consistent(s)
  {
    if r.NoMatch? then s
    else
      var part := PartAfter(s.part, r.key);
      match part
      case InSession => s.(part := part, session := SessionAfter(s.session, r))
      case InTime =>
        if r.key == 't' && r.time then s.(part := part, session := s.session.(time := r.text)) else s.(part := part)
      case InMedia =>
        if r.key == 'm' then
          State(part, Some(r.media.MediaType()), s.session, OpenMedia(s.media, r.media))
        else if r.key == 'a' then
          s.(media := s.media[s.current.value := ApplyAttr(s.media[s.current.value], r.attr)])
        else s
  }

  lemma StepConsistent(s: State, r: Record)
    requires Consistent(s)
    ensures Consistent(Step(s, r))
  {
  }

  function Parsed(s: State, rs: seq<Record>): (t: State)
    requires Consistent(s)
    ensures Consistent(t)
    decreases |rs|
  {
    if rs == [] then s
    else
      StepConsistent(s, rs[0]);
      Parsed(Step(s, rs[0]), rs[1..])
  }

  // ---- One line ----

  /**
   An a= line outside the media part changes nothing. Inside it changes the entry of the latest
   m= line only, and of that entry neither the type, the ports nor the set of payload ids.
   */
  lemma AttributeFrame(s: State, r: Record)
    requires Consistent(s) && r.Field? && r.key == 'a'
    ensures var t := Step(s, r);
            && (s.part != InMedia ==> t == s)
            && t.part == s.part && t.current == s.current && t.session == s.session
            && t.media.Keys == s.media.Keys
            && (forall k :: k in s.media && Some(k) != s.current ==> t.media[k] == s.media[k])
            && (forall k :: k in s.media ==>
                  && t.media[k].mediaType == s.media[k].mediaType && t.media[k].ports == s.media[k].ports
                  && t.media[k].transProt == s.media[k].transProt
                  && t.media[k].fmtMap.Keys == s.media[k].fmtMap.Keys)
  {
  }

  // ---- The whole description ----

  /** The part that the last line with the key s, m or t begins. */
  function PartOf(part: Part, rs: seq<Record>): Part
    decreases |rs|
  {
    if rs == [] then part
    else
      var r := rs[0];
      PartOf(if r.Field? && r.key == 's' then InSession
             else if r.Field? && r.key == 'm' then InMedia
             else if r.Field? && r.key == 't' then InTime
             else part, rs[1..])
  }

  function LatestMedia(current: Option<string>, rs: seq<Record>): Option<string>
    decreases |rs|
  {
    if rs == [] then current
    else LatestMedia(if rs[0].Field? && rs[0].key == 'm' then Some(rs[0].media.MediaType()) else current, rs[1..])
  }

  /** The payload ids that m= lines list for a media type. */
  function Listed(mediaType: string, rs: seq<Record>): set<int> {
    if rs == [] then {}
    else
      (if rs[0].Field? && rs[0].key == 'm' && rs[0].media.MediaType() == mediaType
       then set i | i in rs[0].media.Payloads() else {})
      + Listed(mediaType, rs[1..])
  }

  predicate Mentioned(mediaType: string, rs: seq<Record>) {
    exists i :: 0 <= i < |rs| && rs[i].Field? && rs[i].key == 'm' && rs[i].media.MediaType() == mediaType
  }

  /** What an entry says about a payload id, if anything. */
  function Lookup(media: map<string, MediaInfo>, k: string, id: int, x: Attribute): Option<string> {
    if k in media then Says(media[k].fmtMap, id, x) else None
  }

  function Says(formats: map<int, Format>, id: int, x: Attribute): Option<string> {
    if id in formats && x in formats[id] then Some(formats[id][x]) else None
  }

  function IdsOf(media: map<string, MediaInfo>, k: string): set<int> {
    if k in media then media[k].fmtMap.Keys else {}
  }

  lemma StepBinds(s: State, r: Record, k: string)
    requires Consistent(s)
    ensures var t := Step(s, r);
            && t.part == PartOf(s.part, [r]) && t.current == LatestMedia(s.current, [r])
            && (k in t.media <==> k in s.media || Mentioned(k, [r]))
            && IdsOf(t.media, k) == IdsOf(s.media, k) + Listed(k, [r])
  {
    assert [r][1..] == [];
    assert Mentioned(k, [r]) <==> r.Field? && r.key == 'm' && r.media.MediaType() == k by {
      assert [r][0] == r;
    }
    if r.Field? && r.key == 'a' {
      AttributeFrame(s, r);
    }
  }

  /**
   Over the whole description: the part is set by the last s, m or t line and the pointer by the
   last m line; a media type has an entry exactly if it had one or an m line names it; its payload
   ids are those it had and those the m lines of that type list, and no attribute line adds one.
   */
  lemma {:induction false} WholeParse(s: State, rs: seq<Record>, k: string)
    requires Consistent(s)
    ensures var t := Parsed(s, rs);
            && t.part == PartOf(s.part, rs) && t.current == LatestMedia(s.current, rs)
            && (k in t.media <==> k in s.media || Mentioned(k, rs))
            && IdsOf(t.media, k) == IdsOf(s.media, k) + Listed(k, rs)
            && (k in t.media ==> t.media[k].mediaType == k)
            && (forall id :: id in IdsOf(t.media, k) ==> Lookup(t.media, k, id, MediaTypeName) == Some(k))
    decreases |rs|
  {
    if rs == [] {
    } else {
      var u := Step(s, rs[0]);
      StepConsistent(s, rs[0]);
      StepBinds(s, rs[0], k);
      WholeParse(u, rs[1..], k);
      assert [rs[0]][1..] == [];
      assert Mentioned(k, rs) <==> Mentioned(k, [rs[0]]) || Mentioned(k, rs[1..]) by {
        MentionedCons(k, rs);
      }
    }
  }

  lemma MentionedCons(k: string, rs: seq<Record>)
    requires rs != []
    ensures Mentioned(k, rs) <==> Mentioned(k, [rs[0]]) || Mentioned(k, rs[1..])
  {
    if Mentioned(k, rs) {
      var i :| 0 <= i < |rs| && rs[i].Field? && rs[i].key == 'm' && rs[i].media.MediaType() == k;
      if i == 0 {
        assert [rs[0]][0] == rs[0];
      } else {
        assert rs[1..][i - 1] == rs[i];
      }
    }
    if Mentioned(k, rs[1..]) {
      var i :| 0 <= i < |rs[1..]| && rs[1..][i].Field? && rs[1..][i].key == 'm' && rs[1..][i].media.MediaType() == k;
      assert rs[i + 1] == rs[1..][i];
    }
  }

  // ---- Where the attributes of a payload id come from ----

  /** What an attribute line, read for a media type, says about an attribute of a payload id. */
  function Said(k: string, a: AttrLine, id: int, x: Attribute): Option<string> {
    if a.rtpmap.Some? then
      var v := a.rtpmap.value;
      if v.id != id then None
      else
        match x
        case CodecType => Some(v.codec)
        case TimeRate => Some(v.rate)
        case ChannelNum => if v.channels.Some? then v.channels else Some("1")
        case _ => None
    else if k == "video" && a.h265.Some? then
      var v := a.h265.value;
      if v.id != id then None
      else
        match x
        case AttrVps => Some(v.vps)
        case AttrSps => Some(v.sps)
        case AttrPps => Some(v.pps)
        case _ => None
    else if k == "video" && a.h264.Some? then
      var v := a.h264.value;
      if v.id != id then None
      else
        match x
        case PackMode => Some(v.mode)
        case AttrSps => Some(v.sps)
        case AttrPps => Some(v.pps)
        case _ => None
    else None
  }

  /** A line behind `front` is in the media part and belongs to the section of k. */
  predicate InSectionOf(s: State, front: seq<Record>, k: string) {
    PartOf(s.part, front) == InMedia && LatestMedia(s.current, front) == Some(k)
  }

  /**
   The last word about an attribute of a payload id: that of the last attribute line in a section of
   k, behind an m= line of k that lists the id, that says something about it.
   */
  function LastSaid(s: State, rs: seq<Record>, k: string, id: int, x: Attribute): Option<string>
    decreases |rs|
  {
    if rs == [] then Lookup(s.media, k, id, x)
    else
      var front, r := rs[..|rs| - 1], rs[|rs| - 1];
      if r.Field? && r.key == 'a' && InSectionOf(s, front, k)
         && id in IdsOf(s.media, k) + Listed(k, front) && Said(k, r.attr, id, x).Some?
      then Said(k, r.attr, id, x)
      else LastSaid(s, front, k, id, x)
  }

  lemma {:induction false} ParsedSnoc(s: State, rs: seq<Record>, r: Record)
    requires Consistent(s)
    ensures Consistent(Parsed(s, rs)) && Parsed(s, rs + [r]) == Step(Parsed(s, rs), r)
    decreases |rs|
  {
    if rs == [] {
      assert [] + [r] == [r] && [r][1..] == [];
    } else {
      StepConsistent(s, rs[0]);
      ParsedSnoc(Step(s, rs[0]), rs[1..], r);
      assert (rs + [r])[1..] == rs[1..] + [r];
    }
  }

  /** An m= line keeps what is said about payload ids, except their media type. */
  lemma {:induction false} AddPayloadsKeeps(formats: map<int, Format>, ids: seq<int>, mediaType: string, id: int, x: Attribute)
    requires x != MediaTypeName
    ensures Says(AddPayloads(formats, ids, mediaType), id, x) == Says(formats, id, x)
    decreases |ids|
  {
    if ids == [] {
    } else {
      var f := if ids[0] in formats then formats[ids[0]] else map[];
      AddPayloadsKeeps(formats[ids[0] := f[MediaTypeName := mediaType]], ids[1..], mediaType, id, x);
    }
  }

  lemma OpenKeeps(media: map<string, MediaInfo>, m: MediaLine, k: string, id: int, x: Attribute)
    requires x != MediaTypeName
    ensures Lookup(OpenMedia(media, m), k, id, x) == Lookup(media, k, id, x)
  {
    var entry := if m.MediaType() in media then media[m.MediaType()] else NO_MEDIA;
    AddPayloadsKeeps(entry.fmtMap, m.Payloads(), m.MediaType(), id, x);
  }

  /** An attribute line changes what it says about a payload id of the entry, and nothing else. */
  lemma ApplySays(e: MediaInfo, a: AttrLine, id: int, x: Attribute)
    ensures Says(ApplyAttr(e, a).fmtMap, id, x) ==
              if id in e.fmtMap && Said(e.mediaType, a, id, x).Some? then Said(e.mediaType, a, id, x)
              else Says(e.fmtMap, id, x)
  {
  }

  /** One line: it says the last word, or nothing changes. */
  lemma StepSays(s: State, r: Record, k: string, id: int, x: Attribute)
    requires Consistent(s) && x != MediaTypeName
    ensures Lookup(Step(s, r).media, k, id, x) ==
              if r.Field? && r.key == 'a' && s.part == InMedia && s.current == Some(k)
                 && id in IdsOf(s.media, k) && Said(k, r.attr, id, x).Some?
              then Said(k, r.attr, id, x)
              else Lookup(s.media, k, id, x)
  {
    if r.Field? && r.key == 'm' {
      OpenKeeps(s.media, r.media, k, id, x);
    } else if r.Field? && r.key == 'a' && s.part == InMedia {
      ApplySays(s.media[s.current.value], r.attr, id, x);
    }
  }

  /**
   After the whole description an attribute of a payload id is what the last line that may speak
   about it said, and unset if there is none: codec, rate and channels come from the last rtpmap
   line that names the id in a section of its media type behind its listing, and likewise the rest.
   */
  lemma {:induction false} LastWordCounts(s: State, rs: seq<Record>, k: string, id: int, x: Attribute)
    requires Consistent(s) && x != MediaTypeName
    ensures Lookup(Parsed(s, rs).media, k, id, x) == LastSaid(s, rs, k, id, x)
    decreases |rs|
  {
    if rs == [] {
    } else {
      var front, r := rs[..|rs| - 1], rs[|rs| - 1];
      assert front + [r] == rs;
      ParsedSnoc(s, front, r);
      WholeParse(s, front, k);
      StepSays(Parsed(s, front), r, k, id, x);
      LastWordCounts(s, front, k, id, x);
    }
  }

  // ---- Where the fields of an entry come from ----

  function PortsOf(media: map<string, MediaInfo>, k: string): string {
    if k in media then media[k].ports else ""
  }

  function TransProtOf(media: map<string, MediaInfo>, k: string): string {
    if k in media then media[k].transProt else ""
  }

  function ControlOf(media: map<string, MediaInfo>, k: string): string {
    if k in media then media[k].controlUri else ""
  }

  predicate IsControl(k: string, a: AttrLine) {
    a.rtpmap.None? && !(k == "video" && (a.h265.Some? || a.h264.Some?)) && a.control.Some?
  }

  predicate Opens(r: Record, k: string) {
    r.Field? && r.key == 'm' && r.media.MediaType() == k
  }

  function LastPorts(s: State, rs: seq<Record>, k: string): string
    decreases |rs|
  {
    if rs == [] then PortsOf(s.media, k)
    else
      var r := rs[|rs| - 1];
      if Opens(r, k) && r.media.Text(1).Some? then r.media.Text(1).value else LastPorts(s, rs[..|rs| - 1], k)
  }

  function LastTransProt(s: State, rs: seq<Record>, k: string): string
    decreases |rs|
  {
    if rs == [] then TransProtOf(s.media, k)
    else
      var r := rs[|rs| - 1];
      if Opens(r, k) && r.media.Text(2).Some? then r.media.Text(2).value else LastTransProt(s, rs[..|rs| - 1], k)
  }

  function LastControl(s: State, rs: seq<Record>, k: string): string
    decreases |rs|
  {
    if rs == [] then ControlOf(s.media, k)
    else
      var front, r := rs[..|rs| - 1], rs[|rs| - 1];
      if r.Field? && r.key == 'a' && InSectionOf(s, front, k) && IsControl(k, r.attr) then r.attr.control.value
      else LastControl(s, front, k)
  }

  lemma StepOpens(s: State, r: Record, k: string)
    requires Consistent(s)
    ensures var media := Step(s, r).media;
            && PortsOf(media, k) == (if Opens(r, k) && r.media.Text(1).Some? then r.media.Text(1).value else PortsOf(s.media, k))
            && TransProtOf(media, k) ==
               (if Opens(r, k) && r.media.Text(2).Some? then r.media.Text(2).value else TransProtOf(s.media, k))
  {
    if r.Field? && r.key == 'a' {
      AttributeFrame(s, r);
    }
  }

  lemma StepControls(s: State, r: Record, k: string)
    requires Consistent(s)
    ensures ControlOf(Step(s, r).media, k) ==
              if r.Field? && r.key == 'a' && s.part == InMedia && s.current == Some(k) && IsControl(k, r.attr)
              then r.attr.control.value else ControlOf(s.media, k)
  {
  }

  /** Ports and protocol are those of the last m= line that gives them, the control URI that of the last control line in a section. */
  lemma {:induction false} LastFieldsCount(s: State, rs: seq<Record>, k: string)
    requires Consistent(s)
    ensures var media := Parsed(s, rs).media;
            && PortsOf(media, k) == LastPorts(s, rs, k)
            && TransProtOf(media, k) == LastTransProt(s, rs, k)
            && ControlOf(media, k) == LastControl(s, rs, k)
    decreases |rs|
  {
    if rs == [] {
    } else {
      var front, r := rs[..|rs| - 1], rs[|rs| - 1];
      assert front + [r] == rs;
      ParsedSnoc(s, front, r);
      WholeParse(s, front, k);
      StepOpens(Parsed(s, front), r, k);
      StepControls(Parsed(s, front), r, k);
      LastFieldsCount(s, front, k);
    }
  }

  // ---- Where the session fields come from ----

  datatype SessionWord = Name | Version | Origin | Connection | Time

  /** The field as the session has it. */
  function WordOf(session: SessionInfo, w: SessionWord): string {
    match w
    case Name => session.name
    case Version => session.version
    case Origin => session.origin
    case Connection => session.connection
    case Time => session.time
  }

  /** The line, read in that part, gives the field. Connection data are read from o= lines. */
  predicate GivesWord(r: Record, part: Part, w: SessionWord) {
    r.Field? &&
    match w
    case Name => r.key == 's'
    case Version => r.key == 'v' && part == InSession
    case Origin => r.key == 'o' && part == InSession && r.origin
    case Connection => r.key == 'o' && part == InSession && r.connection
    case Time => r.key == 't' && r.time
  }

  /** The text of the last line that gives the field, or what it was. */
  function LastWord(s: State, rs: seq<Record>, w: SessionWord): string
    decreases |rs|
  {
    if rs == [] then WordOf(s.session, w)
    else
      var front, r := rs[..|rs| - 1], rs[|rs| - 1];
      if GivesWord(r, PartOf(s.part, front), w) then r.text else LastWord(s, front, w)
  }

  lemma StepWord(s: State, r: Record, w: SessionWord)
    requires Consistent(s)
    ensures WordOf(Step(s, r).session, w) == if GivesWord(r, s.part, w) then r.text else WordOf(s.session, w)
  {
  }

  /**
   The name of the session is the text of the last s line and the version that of the last v line in
   the session part. Origin and connection are those of the last o line there that has one, and the
   time is that of the last t line that reads as one. Without such a line a field is what it was.
   */
  lemma {:induction false} LastSessionWords(s: State, rs: seq<Record>, w: SessionWord)
    requires Consistent(s)
    ensures WordOf(Parsed(s, rs).session, w) == LastWord(s, rs, w)
    decreases |rs|
  {
    if rs == [] {
    } else {
      var front, r := rs[..|rs| - 1], rs[|rs| - 1];
      assert front + [r] == rs;
      ParsedSnoc(s, front, r);
      WholeParse(s, front, "");
      StepWord(Parsed(s, front), r, w);
      LastSessionWords(s, front, w);
    }
  }

  // ---- The object ----

  function Classified(classify: string -> Record, lines: seq<string>): seq<Record> {
    if lines == [] then [] else [classify(lines[0])] + Classified(classify, lines[1..])
  }

  lemma ParsedCons(s: State, classify: string -> Record, line: string, lines: seq<string>)
    requires Consistent(s)
    ensures Consistent(Step(s, classify(line)))
    ensures Parsed(s, Classified(classify, [line] + lines))
            == Parsed(Step(s, classify(line)), Classified(classify, lines))
  {
    StepConsistent(s, classify(line));
    assert ([line] + lines)[1..] == lines;
    var rs := Classified(classify, lines);
    assert ([classify(line)] + rs)[1..] == rs;
  }

  /** The three flags of the loop, of which one is set. */
  datatype Flags = Flags(sessionInfo: bool, mediaInfo: bool, timeInfo: bool)

  function FlagsOf(part: Part): Flags {
    Flags(part == InSession, part == InMedia, part == InTime)
  }

  class SdpDescription {
    var session: SessionInfo
    var mediaInfoMap: map<string, MediaInfo>

    constructor ()
      ensures session == SessionInfo("", "", "", "", "") && mediaInfoMap == map[] && Valid()
    {
      session := SessionInfo("", "", "", "", "");
      mediaInfoMap := map[];
    }

    ghost predicate Valid()
      reads this
    {
      Filed(mediaInfoMap)
    }

    method TakeSession(r: Record)
      requires r.Field?
      modifies `session
      ensures session == SessionAfter(old(session), r)
    {
      if r.key == 's' {
        session := session.(name := r.text);
      } else if r.key == 'v' {
        session := session.(version := r.text);
      } else if r.key == 'o' {
        if r.origin {
          session := session.(origin := r.text);
        }
        if r.connection {
          session := session.(connection := r.text);
        }
      }
    }

    /** The tokens of an m= line, one after the other, into the entry of the first. */
    method TakeMedia(m: MediaLine) returns (k: string)
      modifies `mediaInfoMap
      ensures k == m.MediaType() && mediaInfoMap == OpenMedia(old(mediaInfoMap), m)
    {
      var i := 0;
      k := "";
      if i < |m.tokens| {
        k, i := m.tokens[i].text, i + 1;
      }
      var entry := if k in mediaInfoMap then mediaInfoMap[k] else NO_MEDIA;
      ghost var formats := entry.fmtMap;
      entry := entry.(mediaType := k);
      if i < |m.tokens| {
        entry, i := entry.(ports := m.tokens[i].text), i + 1;
      }
      if i < |m.tokens| {
        entry, i := entry.(transProt := m.tokens[i].text), i + 1;
      }
      assert Numbers(m.tokens[i..]) == m.Payloads();
      while i < |m.tokens|
        invariant 0 <= i <= |m.tokens|
        invariant entry == entry.(mediaType := k)
        invariant entry.ports == (if |m.tokens| > 1 then m.tokens[1].text else PortsOf(mediaInfoMap, k))
        invariant entry.transProt == (if |m.tokens| > 2 then m.tokens[2].text else TransProtOf(mediaInfoMap, k))
        invariant entry.controlUri == ControlOf(mediaInfoMap, k)
        invariant AddPayloads(entry.fmtMap, Numbers(m.tokens[i..]), k) == AddPayloads(formats, m.Payloads(), k)
      {
        var id := m.tokens[i].number;
        var format := if id in entry.fmtMap then entry.fmtMap[id] else map[];
        assert Numbers(m.tokens[i..]) == [id] + Numbers(m.tokens[i + 1..]);
        entry := entry.(fmtMap := entry.fmtMap[id := format[MediaTypeName := k]]);
        i := i + 1;
      }
      mediaInfoMap := mediaInfoMap[k := entry];
    }

    /** The four expressions, and the attributes that the one that matches sets. */
    method TakeAttribute(k: string, a: AttrLine)
      requires k in mediaInfoMap
      modifies `mediaInfoMap
      ensures mediaInfoMap == old(mediaInfoMap)[k := ApplyAttr(old(mediaInfoMap)[k], a)]
    {
      var entry := mediaInfoMap[k];
      if a.rtpmap.Some? {
        var v := a.rtpmap.value;
        if v.id in entry.fmtMap {
          var format := entry.fmtMap[v.id];
          format := format[CodecType := v.codec];
          format := format[TimeRate := v.rate];
          format := format[ChannelNum := "1"];
          if v.channels.Some? {
            assert format[ChannelNum := v.channels.value]
                   == entry.fmtMap[v.id][CodecType := v.codec][TimeRate := v.rate][ChannelNum := v.channels.value];
            format := format[ChannelNum := v.channels.value];
          }
          entry := entry.(fmtMap := entry.fmtMap[v.id := format]);
        }
      } else if entry.mediaType == "video" && a.h265.Some? {
        var v := a.h265.value;
        if v.id in entry.fmtMap {
          var format := entry.fmtMap[v.id];
          format := format[AttrVps := v.vps];
          format := format[AttrSps := v.sps];
          format := format[AttrPps := v.pps];
          entry := entry.(fmtMap := entry.fmtMap[v.id := format]);
        }
      } else if entry.mediaType == "video" && a.h264.Some? {
        var v := a.h264.value;
        if v.id in entry.fmtMap {
          var format := entry.fmtMap[v.id];
          format := format[PackMode := v.mode];
          format := format[AttrSps := v.sps];
          format := format[AttrPps := v.pps];
          entry := entry.(fmtMap := entry.fmtMap[v.id := format]);
        }
      } else if a.control.Some? {
        entry := entry.(controlUri := a.control.value);
      }
      mediaInfoMap := mediaInfoMap[k := entry];
    }

    /** The body of the loop for one line. */
    method TakeLine(r: Record, flags: Flags, current: Option<string>, ghost part: Part)
      returns (newFlags: Flags, newCurrent: Option<string>)
      requires flags == FlagsOf(part) && Consistent(State(part, current, session, mediaInfoMap))
      modifies this
      ensures var t := Step(State(part, current, old(session), old(mediaInfoMap)), r);
              && newFlags == FlagsOf(t.part) && newCurrent == t.current
              && session == t.session && mediaInfoMap == t.media
    {
      newFlags, newCurrent := flags, current;
      if r.NoMatch? {
        return;
      }
      if r.key == 's' {
        newFlags := Flags(true, false, false);
      } else if r.key == 'm' {
        newFlags := Flags(false, true, false);
      } else if r.key == 't' {
        newFlags := Flags(false, false, true);
      }
      if newFlags.sessionInfo {
        TakeSession(r);
      }
      if newFlags.timeInfo {
        if r.key == 't' && r.time {
          session := session.(time := r.text);
        }
      }
      if newFlags.mediaInfo {
        if r.key == 'm' {
          var k := TakeMedia(r.media);
          newCurrent := Some(k);
        } else if r.key == 'a' {
          TakeAttribute(current.value, r.attr);
        }
      }
    }

    /** The loop over the lines of the text; `classify` stands for the regular expressions. */
    method Parse(sdp: StringObject, classify: string -> Record)
      requires Valid()
      modifies this
      ensures Valid()
      ensures var t := Parsed(State(InSession, None, old(session), old(mediaInfoMap)),
                              Classified(classify, Lines(sdp.chars)));
              session == t.session && mediaInfoMap == t.media
    {
      var regex := new MyRegex();
      var flags, current := Flags(true, false, false), None;
      ghost var now := State(InSession, None, session, mediaInfoMap);
      ghost var whole := Parsed(now, Classified(classify, Lines(sdp.chars)));
      ghost var ahead := regex.Ahead(sdp);
      var still, line := regex.RegexLine(sdp);
      while still
        invariant regex.Valid() && fresh(regex)
        invariant Consistent(now) && flags == FlagsOf(now.part) && current == now.current
        invariant session == now.session && mediaInfoMap == now.media
        invariant whole == Parsed(now, Classified(classify, ahead))
        invariant if still then ahead == [line] + regex.Ahead(sdp) else ahead == []
        decreases |ahead|
      {
        var r := classify(line);
        ParsedCons(now, classify, line, regex.Ahead(sdp));
        flags, current := TakeLine(r, flags, current, now.part);
        now := Step(now, r);
        ahead := regex.Ahead(sdp);
        still, line := regex.RegexLine(sdp);
      }
    }
  }
}
