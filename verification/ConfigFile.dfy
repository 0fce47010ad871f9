/** The saved wg0.conf: the printer in persistConfig and the parser in restoreFromConfig of internal/wg/manager.go. */
module ConfigFile {
  import opened Common
  import opened Text
  import opened Ipv4
  import opened Base64
  import opened Device

  // ---- The printer ----

  function HeaderLines(priv: Key, port: nat, gateway: string): seq<string> {
    ["[Interface]", "PrivateKey" + " = " + Encode(priv), "ListenPort" + " = " + Decimal(port), "Address" + " = " + gateway, ""]
  }

  function AllowedLines(allowed: seq<IPNet>): seq<string> {
    if allowed == [] then [] else ["AllowedIPs" + " = " + FormatNet(allowed[0])] + AllowedLines(allowed[1..])
  }

  function KeepaliveLines(keepalive: Interval): seq<string> {
    if keepalive > 0 then ["PersistentKeepalive" + " = " + Decimal(keepalive)] else []
  }

  /** One peer's block, with the text that stands for its key. */
  function Block(keyText: string, p: PeerConf): seq<string> {
    ["[Peer]"] + ["PublicKey" + " = " + keyText] + AllowedLines(p.allowed) + KeepaliveLines(p.keepalive) + [""]
  }

  /** All blocks, peer i with texts[i] standing for its key. */
  function Blocks(list: seq<PeerConf>, texts: seq<string>): seq<string>
    requires |texts| == |list|
  {
    if list == [] then [] else Block(texts[0], list[0]) + Blocks(list[1..], texts[1..])
  }

  function PrintedKeys(list: seq<PeerConf>): (texts: seq<string>)
    ensures |texts| == |list|
  {
    seq(|list|, i requires 0 <= i < |list| => Encode(list[i].key))
  }

  function Unlines(lines: seq<string>): string {
    if lines == [] then "" else lines[0] + "\n" + Unlines(lines[1..])
  }

  function TextWith(priv: Key, port: nat, gateway: string, list: seq<PeerConf>, texts: seq<string>): string
    requires |texts| == |list|
  {
    Unlines(HeaderLines(priv, port, gateway) + Blocks(list, texts))
  }

  /** The saved file. */
  function ConfigText(priv: Key, port: nat, gateway: string, list: seq<PeerConf>): string {
    TextWith(priv, port, gateway, list, PrintedKeys(list))
  }

  // ---- The parser, one line at a time ----

  datatype Parse = Parse(priv: Option<Key>, peers: seq<Conf>, cur: Option<Conf>)

  datatype Conf = Conf(key: Key, allowed: seq<IPNet>, keepalive: int)

  function NoPeer(): Conf { Conf(seq(32, _ => 0), [], 0) }

  predicate Signed(s: string) { s != "" && (s[0] == '-' || s[0] == '+') }

  function Unsigned(s: string): string { if Signed(s) then s[1..] else s }

  function InInt64(n: int): Option<int> {
    if -0x8000_0000_0000_0000 <= n < 0x8000_0000_0000_0000 then Some(n) else None
  }

  /** strconv.Atoi on a 64-bit platform. */
  function Atoi(s: string): Option<int> {
    if Unsigned(s) == "" || !AllDigits(Unsigned(s)) then None
    else if s[0] == '-' then InInt64(0 - Value(Unsigned(s)))
    else InInt64(Value(Unsigned(s)))
  }

  function Key32(v: string): Option<Key> {
    match Decode(v)
    case None => None
    case Some(raw) => if |raw| == 32 then Some(raw) else None
  }

  function ParseNets(cidrs: seq<string>): seq<IPNet> {
    if cidrs == [] then []
    else
      var rest := ParseNets(cidrs[1..]);
      match ParseCIDR(Trim(cidrs[0]))
      case None => rest
      case Some(n) => [n] + rest
  }

  function Flush(st: Parse): seq<Conf> { if st.cur.Some? then st.peers + [st.cur.value] else st.peers }

  function ParseLine(st: Parse, raw: string): Parse {
    var line := Trim(raw);
    if line == "" || line[0] == '#' then st
    else if line == "[Interface]" then Parse(st.priv, Flush(st), None)
    else if line == "[Peer]" then Parse(st.priv, Flush(st), Some(NoPeer()))
    else match Cut(line, '=')
      case None => st
      case Some((left, right)) => Assign(st, Trim(left), Trim(right))
  }

  /** An assignment inside a [Peer] section; an undecodable key drops the peer. */
  function AssignPeer(c: Conf, k: string, v: string): Option<Conf> {
    if k == "PublicKey" then
      if Key32(v).None? then None else Some(Conf(Key32(v).value, c.allowed, c.keepalive))
    else if k == "AllowedIPs" then Some(Conf(c.key, c.allowed + ParseNets(Split(v, ',')), c.keepalive))
    else if k == "PersistentKeepalive" && Atoi(v).Some? then Some(Conf(c.key, c.allowed, Atoi(v).value))
    else Some(c)
  }

  function Assign(st: Parse, k: string, v: string): Parse {
    if st.cur.Some? then Parse(st.priv, st.peers, AssignPeer(st.cur.value, k, v))
    else if k == "PrivateKey" && Key32(v).Some? then Parse(Key32(v), st.peers, None)
    else st
  }

  function ParseLines(st: Parse, lines: seq<string>): Parse
    decreases |lines|
  {
    if lines == [] then st else ParseLines(ParseLine(st, lines[0]), lines[1..])
  }

  function Start(): Parse { Parse(None, [], None) }

  function Restored(text: string): (Option<Key>, seq<Conf>) {
    var end := ParseLines(Start(), Split(text, '\n'));
    (end.priv, Flush(end))
  }

  // ---- Round trip ----

  lemma {:induction false} SplitUnlines(lines: seq<string>)
    requires forall l | l in lines :: '\n' !in l
    ensures Split(Unlines(lines), '\n') == lines + [""]
  {
    if lines != [] {
      SplitUnlines(lines[1..]);
      SplitFirst(lines[0], '\n', Unlines(lines[1..]));
    }
  }

  lemma {:induction false} ParseConcat(st: Parse, a: seq<string>, b: seq<string>)
    ensures ParseLines(st, a + b) == ParseLines(ParseLines(st, a), b)
    decreases |a|
  {
    if a == [] {
      assert a + b == b;
    } else {
      assert (a + b)[1..] == a[1..] + b;
      ParseConcat(ParseLine(st, a[0]), a[1..], b);
    }
  }

  /** A printed assignment is read as that assignment. */
  lemma ParseAssignment(st: Parse, key: string, value: string)
    requires |key| >= 2 && Trimmed(key) && '=' !in key && key[0] != '#' && key[0] != '['
    requires Trimmed(value)
    ensures ParseLine(st, key + " = " + value) == Assign(st, key, value)
  {
    hide Assign, Trim, Cut, IsSpace;
    if value == "" { EmptyAssignment(key); } else { FullAssignment(key, value); }
  }

  lemma FullAssignment(key: string, value: string)
    requires |key| >= 2 && Trimmed(key) && '=' !in key && Trimmed(value) && value != ""
    ensures var line := Trim(key + " = " + value);
      && line != "" && line[0] == key[0]
      && Cut(line, '=') == Some((key + " ", " " + value))
      && Trim(key + " ") == key && Trim(" " + value) == value
  {
    hide Trim, Cut, IsSpace;
    TrimOneSpace(key + " = " + value);
    CutAssignment(key, value);
  }

  lemma EmptyAssignment(key: string)
    requires |key| >= 2 && Trimmed(key) && '=' !in key
    ensures var line := Trim(key + " = " + "");
      && line != "" && line[0] == key[0]
      && Cut(line, '=') == Some((key + " ", ""))
      && Trim(key + " ") == key && Trim("") == ""
  {
    hide Cut;
    assert key + " = " + "" == key + " =" + " ";
    TrimOneSpace(key + " =");
    TrimOneSpace(key);
    assert key + " =" == (key + " ") + ['='] + "";
    CutAt(key + " ", '=', "");
  }

  function AsConf(p: PeerConf): Conf { Conf(p.key, p.allowed, p.keepalive) }

  function AsConfs(list: seq<PeerConf>): seq<Conf> { seq(|list|, i requires 0 <= i < |list| => AsConf(list[i])) }

  predicate Printable(p: PeerConf) { forall a | a in p.allowed :: Masked(a) }

  /** The keys the printer writes need no trimming. */
  lemma PlainNames(s: string)
    requires s in {"PrivateKey", "ListenPort", "Address", "PublicKey", "AllowedIPs", "PersistentKeepalive"}
    ensures Trimmed(s) && |s| >= 2 && '=' !in s && s[0] != '#' && s[0] != '['
  {}

  lemma KeyReads(k: Key)
    ensures Key32(Encode(k)) == Some(k) && Trimmed(Encode(k)) && '\n' !in Encode(k)
  {
    hide Encode;
    DecodeEncode(k);
    WithoutSpaces(Encode(k));
  }

  lemma NetReads(n: IPNet)
    requires Masked(n)
    ensures ParseNets(Split(FormatNet(n), ',')) == [n] && Trimmed(FormatNet(n)) && '\n' !in FormatNet(n)
  {
    hide FormatNet, ParseCIDR;
    ParseFormatNet(n);
    var t := FormatNet(n);
    SplitOne(t, ',');
    WithoutSpaces(t);
    TrimOneSpace(t);
    assert ParseNets([]) == [];
  }

  lemma DecimalTrimmed(n: nat)
    ensures Trimmed(Decimal(n)) && '\n' !in Decimal(n)
  {
    hide Decimal;
    WithoutSpaces(Decimal(n));
  }

  lemma IntervalReads(i: Interval)
    ensures Atoi(Decimal(i)) == Some(i) && Trimmed(Decimal(i)) && '\n' !in Decimal(i)
  {
    hide Decimal;
    ValueOfDecimal(i);
    WithoutSpaces(Decimal(i));
    assert Decimal(i)[0] in Decimal(i);
  }

  /** The state inside a peer section, and inside one whose key was refused. */
  function Within(priv: Option<Key>, peers: seq<Conf>, c: Option<Conf>, allowed: seq<IPNet>, keepalive: int): Parse {
    Parse(priv, peers, if c.None? then None else Some(Conf(c.value.key, c.value.allowed + allowed, keepalive)))
  }

  lemma OneLine(st: Parse, line: string)
    ensures ParseLines(st, [line]) == ParseLine(st, line)
  {
    assert ParseLines(ParseLine(st, line), []) == ParseLine(st, line);
  }

  lemma ParseOneAllowed(priv: Option<Key>, peers: seq<Conf>, c: Option<Conf>, n: IPNet)
    requires Masked(n) && (c.Some? ==> c.value.keepalive == 0)
    ensures ParseLine(Parse(priv, peers, c), "AllowedIPs" + " = " + FormatNet(n)) == Within(priv, peers, c, [n], 0)
    ensures '\n' !in "AllowedIPs" + " = " + FormatNet(n)
  {
    hide FormatNet, ParseLine, ParseNets, Key32, Atoi, IsSpace, Masked;
    NetReads(n);
    PlainNames("AllowedIPs");
    ParseAssignment(Parse(priv, peers, c), "AllowedIPs", FormatNet(n));
  }

  lemma {:induction false} ParseAllowed(priv: Option<Key>, peers: seq<Conf>, c: Option<Conf>, allowed: seq<IPNet>)
    requires forall a | a in allowed :: Masked(a)
    requires c.Some? ==> c.value.keepalive == 0
    ensures ParseLines(Parse(priv, peers, c), AllowedLines(allowed)) == Within(priv, peers, c, allowed, 0)
    ensures forall l | l in AllowedLines(allowed) :: '\n' !in l
    decreases |allowed|
  {
    hide FormatNet, ParseLine, Masked;
    if allowed == [] {
      assert c.Some? ==> c.value.allowed + allowed == c.value.allowed;
    } else {
      ParseOneAllowed(priv, peers, c, allowed[0]);
      ParseAllowed(priv, peers, Within(priv, peers, c, [allowed[0]], 0).cur, allowed[1..]);
      assert c.Some? ==> c.value.allowed + [allowed[0]] + allowed[1..] == c.value.allowed + allowed;
      assert AllowedLines(allowed)[1..] == AllowedLines(allowed[1..]);
    }
  }

  lemma ParseKeepalive(priv: Option<Key>, peers: seq<Conf>, c: Option<Conf>, keepalive: Interval)
    requires c.Some? ==> c.value.keepalive == 0
    ensures ParseLines(Parse(priv, peers, c), KeepaliveLines(keepalive)) == Within(priv, peers, c, [], keepalive)
    ensures forall l | l in KeepaliveLines(keepalive) :: '\n' !in l
  {
    hide ParseLine, Decimal, IsSpace, Atoi, Key32, ParseNets;
    assert c.Some? ==> c.value.allowed + [] == c.value.allowed;
    if keepalive > 0 {
      IntervalReads(keepalive);
      PlainNames("PersistentKeepalive");
      ParseAssignment(Parse(priv, peers, c), "PersistentKeepalive", Decimal(keepalive));
      OneLine(Parse(priv, peers, c), KeepaliveLines(keepalive)[0]);
    }
  }

  lemma BlankLine(st: Parse)
    ensures ParseLine(st, "") == st
  {}

  lemma PeerHeading(st: Parse)
    ensures ParseLine(st, "[Peer]") == Parse(st.priv, Flush(st), Some(NoPeer()))
  {
    TrimOneSpace("[Peer]");
  }

  /** The section of a peer whose key text decodes, and of one whose key text does not. */
  function Opened(text: string): Option<Conf> {
    if Key32(text).Some? then Some(Conf(Key32(text).value, [], 0)) else None
  }

  lemma ParseHead(st: Parse, text: string)
    requires Trimmed(text)
    ensures ParseLines(st, ["[Peer]"] + ["PublicKey" + " = " + text]) == Parse(st.priv, Flush(st), Opened(text))
  {
    hide ParseLine, Key32, ParseLines;
    var s1 := Parse(st.priv, Flush(st), Some(NoPeer()));
    PeerHeading(st);
    ParseAssignment(s1, "PublicKey", text);
    OneLine(st, "[Peer]");
    OneLine(s1, "PublicKey" + " = " + text);
    ParseConcat(st, ["[Peer]"], ["PublicKey" + " = " + text]);
  }

  lemma ParseBody(priv: Option<Key>, peers: seq<Conf>, c: Option<Conf>, p: PeerConf)
    requires Printable(p) && (c.Some? ==> c.value.keepalive == 0)
    ensures ParseLines(Parse(priv, peers, c), AllowedLines(p.allowed) + KeepaliveLines(p.keepalive) + [""]) ==
            Within(priv, peers, c, p.allowed, p.keepalive)
    ensures forall l | l in AllowedLines(p.allowed) + KeepaliveLines(p.keepalive) :: '\n' !in l
  {
    hide ParseLine, ParseLines, AllowedLines, KeepaliveLines;
    var st, nets, wait := Parse(priv, peers, c), AllowedLines(p.allowed), KeepaliveLines(p.keepalive);
    ParseAllowed(priv, peers, c, p.allowed);
    var s2 := Within(priv, peers, c, p.allowed, 0);
    ParseConcat(st, nets, wait);
    ParseKeepalive(priv, peers, s2.cur, p.keepalive);
    var s3 := Within(priv, peers, s2.cur, [], p.keepalive);
    ParseConcat(st, nets + wait, [""]);
    OneLine(s3, "");
    BlankLine(s3);
    assert c.Some? ==> c.value.allowed + p.allowed + [] == c.value.allowed + p.allowed;
  }

  /** A block with the peer's own key text adds the peer; one with an undecodable key text adds nothing. */
  lemma ParseBlock(st: Parse, text: string, p: PeerConf)
    requires Printable(p) && Trimmed(text) && '\n' !in text
    requires Key32(text) == Some(p.key) || Key32(text).None?
    ensures ParseLines(st, Block(text, p)) ==
            Parse(st.priv, Flush(st), if Key32(text).Some? then Some(AsConf(p)) else None)
    ensures forall l | l in Block(text, p) :: '\n' !in l
  {
    hide ParseLine, Key32, ParseLines, AllowedLines, KeepaliveLines;
    var head := ["[Peer]"] + ["PublicKey" + " = " + text];
    var body := AllowedLines(p.allowed) + KeepaliveLines(p.keepalive) + [""];
    assert Block(text, p) == head + body;
    ParseHead(st, text);
    ParseConcat(st, head, body);
    ParseBody(st.priv, Flush(st), Opened(text), p);
    assert [] + p.allowed == p.allowed;
  }

  /** The peers whose key text decodes. */
  function Survivors(list: seq<PeerConf>, texts: seq<string>): seq<Conf>
    requires |texts| == |list|
  {
    if list == [] then []
    else (if Key32(texts[0]).Some? then [AsConf(list[0])] else []) + Survivors(list[1..], texts[1..])
  }

  /** Each text is the peer's key as printed, or something that is no key. */
  ghost predicate KeysOrGarbage(list: seq<PeerConf>, texts: seq<string>)
    requires |texts| == |list|
  {
    forall i | 0 <= i < |list| ::
      && Trimmed(texts[i]) && '\n' !in texts[i]
      && (Key32(texts[i]) == Some(list[i].key) || Key32(texts[i]).None?)
  }

  lemma {:induction false} ParseBlocks(st: Parse, list: seq<PeerConf>, texts: seq<string>)
    requires |texts| == |list| && KeysOrGarbage(list, texts) && forall p | p in list :: Printable(p)
    ensures ParseLines(st, Blocks(list, texts)).priv == st.priv
    ensures Flush(ParseLines(st, Blocks(list, texts))) == Flush(st) + Survivors(list, texts)
    ensures forall l | l in Blocks(list, texts) :: '\n' !in l
    decreases |list|
  {
    hide ParseLine, Key32, Block, AsConf, Printable, Trimmed;
    if list == [] {
      assert Flush(st) + [] == Flush(st);
    } else {
      var block, rest := Block(texts[0], list[0]), Blocks(list[1..], texts[1..]);
      assert list[0] in list;
      ParseBlock(st, texts[0], list[0]);
      ParseConcat(st, block, rest);
      var next := ParseLines(st, block);
      hide ParseLines;
      ParseBlocks(next, list[1..], texts[1..]);
      var one := if Key32(texts[0]).Some? then [AsConf(list[0])] else [];
      assert Flush(next) == Flush(st) + one;
      assert Flush(st) + one + Survivors(list[1..], texts[1..]) == Flush(st) + (one + Survivors(list[1..], texts[1..]));
    }
  }

  lemma FiveLines(st: Parse, a: string, b: string, c: string, d: string, e: string)
    ensures ParseLines(st, [a, b, c, d, e]) == ParseLine(ParseLine(ParseLine(ParseLine(ParseLine(st, a), b), c), d), e)
  {
    hide ParseLine;
    assert [a, b, c, d, e][1..] == [b, c, d, e] && [b, c, d, e][1..] == [c, d, e] && [c, d, e][1..] == [d, e];
    var mid := ParseLine(ParseLine(ParseLine(st, a), b), c);
    assert [d, e][1..] == [e];
    OneLine(ParseLine(mid, d), e);
    assert ParseLines(ParseLine(st, a), [b, c, d, e]) == ParseLines(ParseLine(ParseLine(st, a), b), [c, d, e]);
  }

  lemma InterfaceHeading()
    ensures ParseLine(Start(), "[Interface]") == Start()
  {
    TrimOneSpace("[Interface]");
  }

  lemma ParseHeader(priv: Key, port: nat, gateway: string)
    requires Trimmed(gateway) && '\n' !in gateway
    ensures ParseLines(Start(), HeaderLines(priv, port, gateway)) == Parse(Some(priv), [], None)
    ensures forall l | l in HeaderLines(priv, port, gateway) :: '\n' !in l
  {
    hide ParseLine, ParseLines, Key32, Encode, Decimal, IsSpace, IsDigit;
    var h, st := HeaderLines(priv, port, gateway), Parse(Some(priv), [], None);
    InterfaceHeading();
    KeyReads(priv);
    DecimalTrimmed(port);
    PlainNames("PrivateKey");
    PlainNames("ListenPort");
    PlainNames("Address");
    ParseAssignment(Start(), "PrivateKey", Encode(priv));
    ParseAssignment(st, "ListenPort", Decimal(port));
    ParseAssignment(st, "Address", gateway);
    BlankLine(st);
    FiveLines(Start(), h[0], h[1], h[2], h[3], h[4]);
  }

  /**
   * Parsing the saved text gives back the private key and, in order, exactly the peers whose
   * PublicKey value decodes, each with its allowed IPs and its keepalive.
   */
  lemma RestoreUndoesPersist(priv: Key, port: nat, gateway: string, list: seq<PeerConf>, texts: seq<string>)
    requires |texts| == |list| && KeysOrGarbage(list, texts) && forall p | p in list :: Printable(p)
    requires Trimmed(gateway) && '\n' !in gateway
    ensures Restored(TextWith(priv, port, gateway, list, texts)) == (Some(priv), Survivors(list, texts))
  {
    hide ParseLine, Key32, Blocks, HeaderLines, Survivors;
    var header, blocks := HeaderLines(priv, port, gateway), Blocks(list, texts);
    ParseHeader(priv, port, gateway);
    ParseBlocks(Parse(Some(priv), [], None), list, texts);
    SplitUnlines(header + blocks);
    ParseConcat(Start(), header, blocks);
    var end := ParseLines(Start(), header + blocks);
    ParseConcat(Start(), header + blocks, [""]);
    OneLine(end, "");
    BlankLine(end);
    assert [] + Survivors(list, texts) == Survivors(list, texts);
  }

  /** With every key text intact, nothing is dropped. */
  lemma {:induction false} AllSurvive(list: seq<PeerConf>)
    ensures KeysOrGarbage(list, PrintedKeys(list))
    ensures Survivors(list, PrintedKeys(list)) == AsConfs(list)
    decreases |list|
  {
    hide Key32, Encode;
    forall i | 0 <= i < |list|
      ensures Key32(PrintedKeys(list)[i]) == Some(list[i].key)
      ensures Trimmed(PrintedKeys(list)[i]) && '\n' !in PrintedKeys(list)[i]
    {
      KeyReads(list[i].key);
    }
    if list != [] {
      AllSurvive(list[1..]);
      assert PrintedKeys(list)[1..] == PrintedKeys(list[1..]);
    }
  }

  /** Spoiling one PublicKey value drops that peer and no other. */
  lemma {:induction false} SpoiledKeyDropsOne(list: seq<PeerConf>, i: nat, bad: string)
    requires i < |list| && Key32(bad).None? && Trimmed(bad) && '\n' !in bad
    ensures KeysOrGarbage(list, PrintedKeys(list)[i := bad])
    ensures Survivors(list, PrintedKeys(list)[i := bad]) ==
            Survivors(list[..i], PrintedKeys(list[..i])) + Survivors(list[i + 1..], PrintedKeys(list[i + 1..]))
    decreases |list|
  {
    hide Key32, Encode, Trimmed, AsConf, Survivors;
    AllSurvive(list);
    var texts := PrintedKeys(list)[i := bad];
    SurvivorsCons(list, texts);
    if i == 0 {
      assert texts[1..] == PrintedKeys(list[1..]);
      NoSurvivors();
      assert list[..0] == [];
    } else {
      SpoiledKeyDropsOne(list[1..], i - 1, bad);
      assert texts[1..] == PrintedKeys(list[1..])[i - 1 := bad];
      assert list[1..][..i - 1] == list[..i][1..] && list[1..][i..] == list[i + 1..];
      SurvivorsFirst(list[..i]);
    }
  }

  /** The file as it was printed gives back the private key and every peer, in order. */
  lemma RestoreIntact(priv: Key, port: nat, gateway: string, list: seq<PeerConf>)
    requires Trimmed(gateway) && '\n' !in gateway && forall p | p in list :: Printable(p)
    ensures Restored(ConfigText(priv, port, gateway, list)) == (Some(priv), AsConfs(list))
  {
    hide Restored, TextWith, KeysOrGarbage, Printable, Survivors, PrintedKeys, AsConfs;
    AllSurvive(list);
    RestoreUndoesPersist(priv, port, gateway, list, PrintedKeys(list));
  }

  /** With one PublicKey value made undecodable, exactly that peer is missing. */
  lemma RestoreSpoiled(priv: Key, port: nat, gateway: string, list: seq<PeerConf>, i: nat, bad: string)
    requires Trimmed(gateway) && '\n' !in gateway && forall p | p in list :: Printable(p)
    requires i < |list| && Key32(bad).None? && Trimmed(bad) && '\n' !in bad
    ensures Restored(TextWith(priv, port, gateway, list, PrintedKeys(list)[i := bad])) ==
            (Some(priv), AsConfs(list[..i]) + AsConfs(list[i + 1..]))
  {
    hide Restored, TextWith, KeysOrGarbage, Printable, Survivors, PrintedKeys, AsConfs, Key32, Trimmed;
    SpoiledKeyDropsOne(list, i, bad);
    AllSurvive(list[..i]);
    AllSurvive(list[i + 1..]);
    RestoreUndoesPersist(priv, port, gateway, list, PrintedKeys(list)[i := bad]);
  }

  lemma NoSurvivors()
    ensures Survivors([], PrintedKeys([])) == []
  {}

  lemma SurvivorsCons(list: seq<PeerConf>, texts: seq<string>)
    requires |texts| == |list| && list != []
    ensures Survivors(list, texts) == (if Key32(texts[0]).Some? then [AsConf(list[0])] else []) + Survivors(list[1..], texts[1..])
  {}

  lemma SurvivorsFirst(list: seq<PeerConf>)
    requires list != []
    ensures Survivors(list, PrintedKeys(list)) ==
            (if Key32(Encode(list[0].key)).Some? then [AsConf(list[0])] else []) + Survivors(list[1..], PrintedKeys(list[1..]))
  {
    hide Key32, Encode, AsConf;
    assert PrintedKeys(list)[1..] == PrintedKeys(list[1..]);
  }

  // ---- The printer and the parser as the source runs them ----

  lemma {:induction false} UnlinesConcat(a: seq<string>, b: seq<string>)
    ensures Unlines(a + b) == Unlines(a) + Unlines(b)
  {
    if a == [] {
      assert a + b == b;
    } else {
      assert (a + b)[1..] == a[1..] + b;
      UnlinesConcat(a[1..], b);
    }
  }

  lemma UnlinesFirst(line: string, rest: seq<string>)
    ensures Unlines([line] + rest) == line + "\n" + Unlines(rest)
  {
    assert ([line] + rest)[1..] == rest;
  }

  /** Writing one more line. */
  lemma UnlinesLast(lines: seq<string>, line: string)
    ensures Unlines(lines + [line]) == Unlines(lines) + line + "\n"
  {
    UnlinesConcat(lines, [line]);
    assert Unlines([line]) == line + "\n" by {
      NoLines();
      UnlinesFirst(line, []);
    }
  }

  lemma NoLines()
    ensures forall l: seq<string> :: |l| == 0 ==> Unlines(l) == ""
    ensures forall l: seq<string> :: l + [] == l
  {}

  /** sb.WriteString of one line; `before` and `lines` say what has been written so far. */
  method WriteLine(sb: string, line: string, ghost before: string, ghost lines: seq<string>) returns (r: string)
    requires sb == before + Unlines(lines)
    ensures r == before + Unlines(lines + [line])
  {
    hide Unlines;
    UnlinesLast(lines, line);
    r := sb + line + "\n";
  }

  method PrintAllowed(before: string, allowed: seq<IPNet>) returns (sb: string)
    ensures sb == before + Unlines(AllowedLines(allowed))
  {
    hide FormatNet, Unlines;
    NoLines();
    sb := before;
    ghost var lines := [];
    for j := 0 to |allowed|
      invariant sb == before + Unlines(lines) && lines + AllowedLines(allowed[j..]) == AllowedLines(allowed)
    {
      assert allowed[j..][1..] == allowed[j + 1..];
      var line := "AllowedIPs" + " = " + FormatNet(allowed[j]);
      sb := WriteLine(sb, line, before, lines);
      lines := lines + [line];
    }
  }

  method PrintPeer(before: string, peer: PeerConf) returns (sb: string)
    ensures sb == before + Unlines(Block(Encode(peer.key), peer))
  {
    hide Encode, Decimal, Unlines, AllowedLines;
    NoLines();
    ghost var head := ["[Peer]"] + ["PublicKey" + " = " + Encode(peer.key)];
    ghost var none: seq<string> := [];
    assert none + ["[Peer]"] == ["[Peer]"];
    sb := WriteLine(before, "[Peer]", before, none);
    sb := WriteLine(sb, "PublicKey" + " = " + Encode(peer.key), before, ["[Peer]"]);
    UnlinesConcat(head, AllowedLines(peer.allowed));
    sb := PrintAllowed(sb, peer.allowed);
    ghost var lines := head + AllowedLines(peer.allowed);
    if peer.keepalive > 0 {
      sb := WriteLine(sb, "PersistentKeepalive" + " = " + Decimal(peer.keepalive), before, lines);
    }
    lines := lines + KeepaliveLines(peer.keepalive);
    sb := WriteLine(sb, "", before, lines);
  }

  /** The first five lines. */
  method PrintHeader(priv: Key, port: nat, gateway: string) returns (sb: string)
    ensures sb == Unlines(HeaderLines(priv, port, gateway))
  {
    hide Encode, Decimal, Unlines;
    NoLines();
    ghost var h := HeaderLines(priv, port, gateway);
    ghost var none: seq<string> := [];
    assert none + [h[0]] == [h[0]];
    sb := WriteLine("", "[Interface]", "", none);
    sb := WriteLine(sb, "PrivateKey" + " = " + Encode(priv), "", [h[0]]);
    sb := WriteLine(sb, "ListenPort" + " = " + Decimal(port), "", [h[0]] + [h[1]]);
    sb := WriteLine(sb, "Address" + " = " + gateway, "", [h[0]] + [h[1]] + [h[2]]);
    sb := WriteLine(sb, "", "", [h[0]] + [h[1]] + [h[2]] + [h[3]]);
    assert [h[0]] + [h[1]] + [h[2]] + [h[3]] + [""] == h;
  }

  /** persistConfig writes exactly the saved text. */
  method Print(priv: Key, port: nat, gateway: string, list: seq<PeerConf>) returns (sb: string)
    ensures sb == ConfigText(priv, port, gateway, list)
  {
    hide Encode, Decimal, Block, Unlines, HeaderLines;
    ghost var texts := PrintedKeys(list);
    sb := PrintHeader(priv, port, gateway);
    UnlinesConcat(HeaderLines(priv, port, gateway), Blocks(list, texts));
    for i := 0 to |list|
      invariant sb + Unlines(Blocks(list[i..], texts[i..])) == ConfigText(priv, port, gateway, list)
    {
      assert list[i..][1..] == list[i + 1..] && texts[i..][1..] == texts[i + 1..];
      UnlinesConcat(Block(texts[i], list[i]), Blocks(list[i + 1..], texts[i + 1..]));
      sb := PrintPeer(sb, list[i]);
    }
    NoLines();
  }

  method ReadNets(before: seq<IPNet>, v: string) returns (allowed: seq<IPNet>)
    ensures allowed == before + ParseNets(Split(v, ','))
  {
    hide ParseCIDR, Trim;
    allowed := before;
    var cidrs := Split(v, ',');
    for j := 0 to |cidrs|
      invariant allowed + ParseNets(cidrs[j..]) == before + ParseNets(cidrs)
    {
      assert cidrs[j..][1..] == cidrs[j + 1..];
      var parsed := ParseCIDR(Trim(cidrs[j]));
      if parsed.Some? {
        allowed := allowed + [parsed.value];
      }
    }
  }

  /** The scanning loop of restoreFromConfig. */
  method Scan(data: string) returns (priv: Option<Key>, peers: seq<Conf>)
    ensures (priv, peers) == Restored(data)
  {
    hide Trim, Cut, Key32, Atoi, ParseNets;
    priv, peers := None, [];
    var cur: Option<Conf> := None;
    var lines := Split(data, '\n');
    for i := 0 to |lines|
      invariant ParseLines(Parse(priv, peers, cur), lines[i..]) == ParseLines(Start(), lines)
    {
      assert lines[i..][1..] == lines[i + 1..];
      ghost var next := ParseLine(Parse(priv, peers, cur), lines[i]);
      var line := Trim(lines[i]);
      if line == "" || line[0] == '#' {
      } else if line == "[Interface]" {
        if cur.Some? {
          peers, cur := peers + [cur.value], None;
        }
      } else if line == "[Peer]" {
        if cur.Some? {
          peers := peers + [cur.value];
        }
        cur := Some(NoPeer());
      } else {
        var parts := Cut(line, '=');
        if parts.Some? {
          var k, v := Trim(parts.value.0), Trim(parts.value.1);
          if cur.None? {
            if k == "PrivateKey" {
              var raw := Key32(v);
              if raw.Some? { priv := raw; }
            }
          } else {
            var c := cur.value;
            if k == "PublicKey" {
              var raw := Key32(v);
              cur := if raw.None? then None else Some(Conf(raw.value, c.allowed, c.keepalive));
            } else if k == "AllowedIPs" {
              var allowed := ReadNets(c.allowed, v);
              cur := Some(Conf(c.key, allowed, c.keepalive));
            } else if k == "PersistentKeepalive" {
              var secs := Atoi(v);
              if secs.Some? { cur := Some(Conf(c.key, c.allowed, secs.value)); }
            }
          }
        }
      }
      assert Parse(priv, peers, cur) == next;
    }
    if cur.Some? {
      peers := peers + [cur.value];
    }
  }
}
