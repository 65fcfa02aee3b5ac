/** The index cache file: a magic text, a format version, and an encoded engine. */
module IndexFile {
  import opened Wrappers
  import opened LineProtocol
  import opened Index

  const FORMAT_VERSION: nat := 1

  /** "OcelAuditIDX" in ASCII. */
  const MAGIC: seq<byte> := [79, 99, 101, 108, 65, 117, 100, 105, 116, 73, 68, 88]

  /** The binary encoding of an engine, a library matter; encoding may fail. */
  datatype EngineCodec = EngineCodec(encode: Engine -> Option<seq<byte>>, decode: seq<byte> -> Option<Engine>)

  ghost predicate Faithful(c: EngineCodec) {
    forall e :: c.encode(e).Some? ==> c.decode(c.encode(e).value) == Some(e)
  }

  datatype Loaded = CacheMiss | DecodeError | LoadedEngine(engine: Engine)

  function LittleEndian(n: nat): (b: seq<byte>)
    requires n < 0x1_0000_0000
    ensures |b| == 4
  {
    [(n % 256) as byte, (n / 256 % 256) as byte, (n / 256 / 256 % 256) as byte, (n / 256 / 256 / 256) as byte]
  }

  function FromLittleEndian(b: seq<byte>): nat
    requires |b| == 4
  {
    b[0] as nat + 256 * (b[1] as nat + 256 * (b[2] as nat + 256 * (b[3] as nat)))
  }

  lemma VersionRoundTrip(n: nat)
    requires n < 0x1_0000_0000
    ensures FromLittleEndian(LittleEndian(n)) == n
  {
    var high := n / 256;
    var higher := high / 256;
    assert higher == higher % 256 + 256 * (higher / 256);
    assert high == high % 256 + 256 * higher;
  }

  function Serialize(c: EngineCodec, e: Engine): Option<seq<byte>> {
    match c.encode(e)
    case None => None
    case Some(body) => Some(MAGIC + LittleEndian(FORMAT_VERSION) + body)
  }

  function Load(c: EngineCodec, bytes: seq<byte>): Loaded {
    var header := |MAGIC| + 4;
    if |bytes| < header then CacheMiss
    else if bytes[..|MAGIC|] != MAGIC then CacheMiss
    else if FromLittleEndian(bytes[|MAGIC|..header]) != FORMAT_VERSION then CacheMiss
    else match c.decode(bytes[header..])
      case None => DecodeError
      case Some(e) => LoadedEngine(e)
  }

  /** What is written loads again as the same engine. */
  lemma LoadAfterSerialize(c: EngineCodec, e: Engine)
    requires Faithful(c) && Serialize(c, e).Some?
    ensures Load(c, Serialize(c, e).value) == LoadedEngine(e)
  {
    var body := c.encode(e).value;
    var bytes := Serialize(c, e).value;
    assert bytes[..|MAGIC|] == MAGIC;
    assert bytes[|MAGIC|..|MAGIC| + 4] == LittleEndian(FORMAT_VERSION);
    assert bytes[|MAGIC| + 4..] == body;
    VersionRoundTrip(FORMAT_VERSION);
  }

  /** A file of any other format version is a cache miss, never a decoding error. */
  lemma OtherVersionMisses(c: EngineCodec, version: nat, body: seq<byte>)
    requires version < 0x1_0000_0000 && version != FORMAT_VERSION
    ensures Load(c, MAGIC + LittleEndian(version) + body) == CacheMiss
  {
    var bytes := MAGIC + LittleEndian(version) + body;
    assert bytes[|MAGIC|..|MAGIC| + 4] == LittleEndian(version);
    VersionRoundTrip(version);
  }

  ghost predicate Spells(bytes: seq<byte>, text: string) {
    |bytes| == |text| && forall i :: 0 <= i < |text| ==> bytes[i] as int == text[i] as int
  }

  /** A serialised engine starts with the name of the format and the number one in four bytes, the lowest first. */
  lemma SerializedHeader(c: EngineCodec, e: Engine)
    ensures Serialize(c, e).None? <==> c.encode(e).None?
    ensures Serialize(c, e).Some? ==>
      var bytes := Serialize(c, e).value;
      |bytes| >= 16 && Spells(bytes[..12], "OcelAuditIDX") && bytes[12..16] == [1, 0, 0, 0]
      && bytes[16..] == c.encode(e).value
  {
    if c.encode(e).Some? {
      var bytes := Serialize(c, e).value;
      assert LittleEndian(FORMAT_VERSION) == [1, 0, 0, 0];
      assert bytes[..12] == MAGIC && bytes[12..16] == [1, 0, 0, 0] && bytes[16..] == c.encode(e).value;
    }
  }

  /** What does not start like that is a cache miss; what does is decoded, and fails only if that fails. */
  lemma LoadMeans(c: EngineCodec, bytes: seq<byte>)
    ensures var named := |bytes| >= 16 && Spells(bytes[..12], "OcelAuditIDX") && bytes[12..16] == [1, 0, 0, 0];
            Load(c, bytes)
            == if !named then CacheMiss
               else if c.decode(bytes[16..]).None? then DecodeError else LoadedEngine(c.decode(bytes[16..]).value)
  {
    if |bytes| >= 16 {
      MagicSpells(bytes[..12]);
      var version := bytes[12..16];
      assert FromLittleEndian(version) == 1 <==> version == [1, 0, 0, 0];
    }
  }

  lemma MagicSpells(bytes: seq<byte>)
    requires |bytes| == 12
    ensures bytes == MAGIC <==> Spells(bytes, "OcelAuditIDX")
  {
    var text := "OcelAuditIDX";
    assert forall i :: 0 <= i < 12 ==> MAGIC[i] as int == text[i] as int;
  }
}
