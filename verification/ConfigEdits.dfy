/** The saved file as other programs and people see and edit it: its first lines, noise, padding, lists of networks. */
module ConfigEdits {
  import opened Common
  import opened Text
  import opened Ipv4
  import opened Base64
  import opened Device
  import opened ConfigFile

  /** The file starts with the interface section, and then has one block a peer. */
  lemma FileStarts(priv: Key, port: nat, gateway: string, list: seq<PeerConf>)
    requires Trimmed(gateway) && '\n' !in gateway && forall p | p in list :: Printable(p)
    ensures var lines := Split(ConfigText(priv, port, gateway, list), '\n');
      && |lines| > 5 && lines[0] == "[Interface]" && lines[1] == "PrivateKey = " + Encode(priv)
      && lines[2] == "ListenPort = " + Decimal(port) && lines[3] == "Address = " + gateway && lines[4] == ""
      && lines[5..] == Blocks(list, PrintedKeys(list)) + [""]
  {
    hide ParseLine, ParseLines, Key32, Blocks, Encode, Decimal, PrintedKeys, IsSpace, Split, Unlines;
    AllSurvive(list);
    ParseHeader(priv, port, gateway);
    ParseBlocks(Start(), list, PrintedKeys(list));
    SplitUnlines(HeaderLines(priv, port, gateway) + Blocks(list, PrintedKeys(list)));
    JoinedNames(Encode(priv), Decimal(port), gateway);
  }

  lemma JoinedNames(a: string, b: string, c: string)
    ensures "PrivateKey" + " = " + a == "PrivateKey = " + a
    ensures "ListenPort" + " = " + b == "ListenPort = " + b
    ensures "Address" + " = " + c == "Address = " + c
  {}

  /** A block is a heading, the key, one line for each allowed IP, the keepalive if there is one, and a blank line. */
  lemma BlockIs(p: PeerConf, i: nat)
    ensures var lines := Block(Encode(p.key), p);
      && |lines| == |p.allowed| + (if p.keepalive > 0 then 4 else 3)
      && lines[0] == "[Peer]" && lines[1] == "PublicKey = " + Encode(p.key) && lines[|lines| - 1] == ""
      && (i < |p.allowed| ==> lines[2 + i] == "AllowedIPs = " + FormatNet(p.allowed[i]))
      && (p.keepalive > 0 ==> lines[|lines| - 2] == "PersistentKeepalive = " + Decimal(p.keepalive))
  {
    hide Encode, FormatNet, Decimal;
    AllowedLineAt(p.allowed, i);
    assert "PublicKey" + " = " + Encode(p.key) == "PublicKey = " + Encode(p.key);
    assert "PersistentKeepalive" + " = " + Decimal(p.keepalive) == "PersistentKeepalive = " + Decimal(p.keepalive);
  }

  lemma {:induction false} AllowedLineAt(allowed: seq<IPNet>, i: nat)
    ensures |AllowedLines(allowed)| == |allowed|
    ensures i < |allowed| ==> AllowedLines(allowed)[i] == "AllowedIPs = " + FormatNet(allowed[i])
    decreases |allowed|
  {
    hide FormatNet;
    if allowed != [] {
      AllowedLineAt(allowed[1..], if i > 0 then i - 1 else 0);
      assert "AllowedIPs" + " = " + FormatNet(allowed[0]) == "AllowedIPs = " + FormatNet(allowed[0]);
    }
  }

  // ---- What the parser skips ----

  /** Blank lines, comments, lines that are neither a heading nor an assignment, and assignments to other names. */
  ghost predicate Noise(raw: string) {
    var line := Trim(raw);
    || line == "" || line[0] == '#'
    || (line != "[Interface]" && line != "[Peer]" &&
        match Cut(line, '=')
        case None => true
        case Some((left, _)) => Trim(left) !in {"PrivateKey", "PublicKey", "AllowedIPs", "PersistentKeepalive"})
  }

  lemma NoiseSkipped(st: Parse, raw: string)
    requires Noise(raw)
    ensures ParseLine(st, raw) == st
  {
    hide Trim, Cut, Key32, Atoi, ParseNets;
  }

  /** Wherever noise stands in a file, the file restores the same key and peers without it. */
  lemma NoiseIgnored(before: seq<string>, raw: string, after: seq<string>)
    requires Noise(raw)
    ensures ParseLines(Start(), before + [raw] + after) == ParseLines(Start(), before + after)
  {
    hide ParseLine, ParseLines, Noise;
    var st := ParseLines(Start(), before);
    ParseConcat(Start(), before + [raw], after);
    ParseConcat(Start(), before, [raw]);
    ParseConcat(Start(), before, after);
    OneLine(st, raw);
    NoiseSkipped(st, raw);
  }

  // ---- White space ----

  predicate Spaces(s: string) { forall c | c in s :: IsSpace(c) }

  lemma {:induction false} LeftPadding(pad: string, s: string)
    requires Spaces(pad)
    ensures TrimLeft(pad + s) == TrimLeft(s)
    decreases |pad|
  {
    hide IsSpace;
    if pad == "" {
      assert pad + s == s;
    } else {
      assert pad[0] in pad && forall c | c in pad[1..] :: c in pad;
      assert (pad + s)[1..] == pad[1..] + s;
      LeftPadding(pad[1..], s);
    }
  }

  lemma {:induction false} RightPadding(s: string, pad: string)
    requires Spaces(pad)
    ensures TrimRight(s + pad) == TrimRight(s)
    decreases |pad|
  {
    hide IsSpace;
    if pad == "" {
      assert s + pad == s;
    } else {
      var k := |pad| - 1;
      assert pad[k] in pad && forall c | c in pad[..k] :: c in pad;
      assert (s + pad)[..|s + pad| - 1] == s + pad[..k];
      RightPadding(s, pad[..k]);
    }
  }

  lemma {:induction false} TrimLeftPadded(s: string, pad: string)
    requires Spaces(pad)
    ensures TrimRight(TrimLeft(s + pad)) == TrimRight(TrimLeft(s))
    decreases |s|
  {
    hide IsSpace;
    if s == "" {
      assert s + pad == pad + "";
      LeftPadding(pad, "");
    } else if IsSpace(s[0]) {
      assert (s + pad)[1..] == s[1..] + pad;
      TrimLeftPadded(s[1..], pad);
    } else {
      RightPadding(s, pad);
    }
  }

  /** White space around a line, a carriage return included, means nothing. */
  lemma PaddingIgnored(st: Parse, left: string, line: string, right: string)
    requires Spaces(left) && Spaces(right)
    ensures ParseLine(st, left + line + right) == ParseLine(st, line)
  {
    hide TrimLeft, TrimRight, Cut, Spaces;
    assert left + line + right == left + (line + right);
    LeftPadding(left, line + right);
    TrimLeftPadded(line, right);
  }

  // ---- Lists of networks, and keys of other lengths ----

  /** Texts around commas that are a network each, with white space or without. */
  ghost predicate NetTexts(texts: seq<string>, nets: seq<IPNet>) {
    |texts| == |nets| && forall i | 0 <= i < |nets| :: ',' !in texts[i] && Masked(nets[i]) && Trim(texts[i]) == FormatNet(nets[i])
  }

  lemma {:induction false} ParseEach(texts: seq<string>, nets: seq<IPNet>)
    requires NetTexts(texts, nets)
    ensures ParseNets(texts) == nets
    decreases |texts|
  {
    hide Trim, FormatNet, ParseCIDR, Masked;
    if texts != [] {
      ParseFormatNet(nets[0]);
      ParseEach(texts[1..], nets[1..]);
      assert [nets[0]] + nets[1..] == nets;
    }
  }

  /** A comma list gives the peer all its networks, in order and after those it has. */
  lemma CommaListReads(priv: Option<Key>, peers: seq<Conf>, c: Conf, texts: seq<string>, nets: seq<IPNet>)
    requires texts != [] && NetTexts(texts, nets) && Trimmed(Join(texts, ','))
    ensures ParseLine(Parse(priv, peers, Some(c)), "AllowedIPs = " + Join(texts, ',')) ==
            Parse(priv, peers, Some(Conf(c.key, c.allowed + nets, c.keepalive)))
  {
    hide ParseLine, Trim, FormatNet, ParseCIDR, Masked, ParseNets, Join, Split, Key32, Atoi, IsSpace;
    var value := Join(texts, ',');
    forall t | t in texts ensures ',' !in t {}
    SplitJoin(texts, ',');
    ParseEach(texts, nets);
    PlainNames("AllowedIPs");
    ParseAssignment(Parse(priv, peers, Some(c)), "AllowedIPs", value);
    assert "AllowedIPs" + " = " + value == "AllowedIPs = " + value;
  }

  /** Exactly the base64 texts of 32 bytes are keys. */
  lemma KeyLengthIff(b: seq<byte>)
    ensures Key32(Encode(b)).Some? <==> |b| == 32
    ensures |b| == 32 ==> Key32(Encode(b)) == Some(b)
  {
    hide Encode, Decode;
    DecodeEncode(b);
  }

  /** A keepalive that is no number, and a private key of another length, are skipped. */
  lemma BadValuesSkipped(st: Parse, value: string, b: seq<byte>, j: nat)
    requires Trimmed(value) && j < |value| && !IsDigit(value[j]) && value[j] != '+' && value[j] != '-'
    requires |b| != 32
    ensures ParseLine(st, "PersistentKeepalive = " + value) == st
    ensures ParseLine(st, "PrivateKey = " + Encode(b)) == st
  {
    hide ParseLine, Key32, Encode, IsSpace, ParseNets, Value;
    PlainNames("PersistentKeepalive");
    PlainNames("PrivateKey");
    ParseAssignment(st, "PersistentKeepalive", value);
    EncodedTrimmed(b);
    ParseAssignment(st, "PrivateKey", Encode(b));
    KeyLengthIff(b);
    NoNumber(value, j);
    assert "PersistentKeepalive" + " = " + value == "PersistentKeepalive = " + value;
    assert "PrivateKey" + " = " + Encode(b) == "PrivateKey = " + Encode(b);
  }

  lemma EncodedTrimmed(b: seq<byte>)
    ensures Trimmed(Encode(b))
  {
    hide Encode;
    DecodeEncode(b);
    WithoutSpaces(Encode(b));
  }

  lemma NoNumber(value: string, j: nat)
    requires j < |value| && !IsDigit(value[j]) && value[j] != '+' && value[j] != '-'
    ensures Atoi(value).None?
  {
    if Signed(value) { assert value[1..][j - 1] == value[j]; }
    assert value[j] in Unsigned(value);
  }
}
