/** READ(10) over the SCSI pass-through: the command block, the drive, the residual. */
module Scsi {
  import opened Wrappers
  import opened Bytes
  import opened Content
  import opened UnitStream

  const U16_LIMIT := 0x1_0000
  const U32_LIMIT := 0x1_0000_0000

  type u16 = n: nat | n < U16_LIMIT
  type u32 = n: nat | n < U32_LIMIT

  /** How the drive and the kernel answer one command: a failed one, or a transfer with the
      residual the kernel reports (possibly negative). */
  datatype Reply = Fault(error: IoError) | Done(resid: int)

  /** The medium, sector by sector, and the answer to each successive command. */
  datatype Drive = Drive(sector: nat -> Sector, reply: nat -> Reply)

  datatype Request = Request(lba: nat, sectors: nat)

  /** `sectors` consecutive sectors from `lba`. */
  function Extent(d: Drive, lba: nat, sectors: nat): (s: seq<byte>)
    ensures |s| == 2048 * sectors
  {
    if sectors == 0 then [] else Extent(d, lba, sectors - 1) + d.sector(lba + sectors - 1)
  }

  lemma {:induction false} ExtentSplit(d: Drive, lba: nat, m: nat, n: nat)
    ensures Extent(d, lba, m + n) == Extent(d, lba, m) + Extent(d, lba + m, n)
  {
    if n == 0 {
      assert Extent(d, lba, m) + [] == Extent(d, lba, m);
    } else {
      ExtentSplit(d, lba, m, n - 1);
    }
  }

  lemma ExtentSlice(d: Drive, lba: nat, total: nat, skip: nat, n: nat)
    requires skip + n <= total
    ensures Extent(d, lba, total)[2048 * skip..2048 * (skip + n)] == Extent(d, lba + skip, n)
  {
    ExtentSplit(d, lba, skip, n + (total - skip - n));
    ExtentSplit(d, lba + skip, n, total - skip - n);
  }

  /** Sector `k` of an extent is sector `lba + k` of the medium. */
  lemma ExtentSector(d: Drive, lba: nat, sectors: nat, k: nat)
    requires k < sectors
    ensures Extent(d, lba, sectors)[2048 * k..2048 * k + 2048] == d.sector(lba + k)
  {
    ExtentSlice(d, lba, sectors, k, 1);
    assert Extent(d, lba + k, 1) == [] + d.sector(lba + k);
  }

  /** The READ(10) command block. */
  function Read10Cdb(lba: u32, sectors: u16): (cdb: seq<byte>)
    ensures |cdb| == 10
  {
    [0x28, 0x00, Low8(lba / 0x100_0000), Low8(lba / 0x1_0000), Low8(lba / 0x100), Low8(lba),
     0x00, Low8(sectors / 0x100), Low8(sectors), 0x00]
  }

  /** How a drive reads the command block back. */
  function CdbRequest(cdb: seq<byte>): Request
    requires |cdb| == 10
  {
    Request(BigEndian(cdb[2..6]), BigEndian(cdb[7..9]))
  }

  /** The READ(10) layout byte by byte: operation code 28h, the address in bytes 2 to 5 and the
      length in bytes 7 and 8, most significant first, all else zero. */
  lemma CdbLayout(lba: u32, sectors: u16)
    ensures var cdb := Read10Cdb(lba, sectors);
      && |cdb| == 10 && cdb[0] == 0x28 && cdb[1] == cdb[6] == cdb[9] == 0
      && lba == 0x100_0000 * (cdb[2] as int) + 0x1_0000 * (cdb[3] as int) + 0x100 * (cdb[4] as int) + cdb[5] as int
      && sectors == 0x100 * (cdb[7] as int) + cdb[8] as int
  {
    hide BigEndian, Low8;
    var cdb := Read10Cdb(lba, sectors);
    LbaField(lba);
    CountField(sectors);
    BigEndianFields(cdb[2], cdb[3], cdb[4], cdb[5]);
    BigEndianFields(cdb[7], cdb[8], 0, 0);
  }

  lemma TwoBytes(v: nat)
    ensures ToBigEndian(v, 2) == [Low8(v / 0x100), Low8(v)]
  {
    assert ToBigEndian(v / 256, 1) == ToBigEndian(v / 256 / 256, 0) + [Low8(v / 256)];
  }

  lemma FourBytes(v: nat)
    ensures ToBigEndian(v, 4) == [Low8(v / 0x100_0000), Low8(v / 0x1_0000), Low8(v / 0x100), Low8(v)]
  {
    TwoBytes(v / 256 / 256);
    assert v / 256 / 256 == v / 0x1_0000 && v / 256 / 256 / 256 == v / 0x100_0000;
    assert ToBigEndian(v / 256, 3) == ToBigEndian(v / 256 / 256, 2) + [Low8(v / 256)];
    assert ToBigEndian(v, 4) == ToBigEndian(v / 256, 3) + [Low8(v)];
  }

  lemma LbaField(lba: u32)
    ensures BigEndian([Low8(lba / 0x100_0000), Low8(lba / 0x1_0000), Low8(lba / 0x100), Low8(lba)]) == lba
  {
    assert lba < Pow256(4) by { Powers(); }
    BigEndianInverse(lba, 4);
    FourBytes(lba);
  }

  lemma CountField(sectors: u16)
    ensures BigEndian([Low8(sectors / 0x100), Low8(sectors)]) == sectors
  {
    assert sectors < Pow256(2) by { Powers(); }
    BigEndianInverse(sectors, 2);
    TwoBytes(sectors);
  }

  lemma Powers()
    ensures Pow256(2) == U16_LIMIT && Pow256(4) == U32_LIMIT
  {
    assert Pow256(1) == 256 && Pow256(2) == 0x1_0000 && Pow256(3) == 0x100_0000;
  }

  lemma CdbDecodes(lba: u32, sectors: u16)
    ensures CdbRequest(Read10Cdb(lba, sectors)) == Request(lba, sectors)
    ensures Read10Cdb(lba, sectors)[0] == 0x28
  {
    hide BigEndian, Low8;
    var cdb := Read10Cdb(lba, sectors);
    assert cdb[2..6] == [Low8(lba / 0x100_0000), Low8(lba / 0x1_0000), Low8(lba / 0x100), Low8(lba)];
    assert cdb[7..9] == [Low8(sectors / 0x100), Low8(sectors)];
    LbaField(lba);
    CountField(sectors);
  }

  /** Bytes kept after the residual is subtracted, saturating, with a negative one ignored. */
  function Kept(len: nat, resid: int): (n: nat)
    ensures n <= len
  {
    var r := if resid < 0 then 0 else resid;
    if r >= len then 0 else len - r
  }

  /** What `read10` returns when it is command number `call`. */
  function Transfer(d: Drive, call: nat, lba: nat, sectors: nat): (r: Result<seq<byte>, IoError>)
    ensures r.Ok? ==> |r.value| <= 2048 * sectors
  {
    match d.reply(call)
    case Fault(e) => Err(e)
    case Done(resid) => Ok(Extent(d, lba, sectors)[..Kept(2048 * sectors, resid)])
  }

  /** The answer to a command, exactly: a failed one is its error; otherwise as many bytes fewer
      than were asked for as the residual says, never less than none or more than all. */
  lemma TransferExact(d: Drive, call: nat, lba: nat, sectors: nat)
    ensures var all, r := Extent(d, lba, sectors), Transfer(d, call, lba, sectors);
      match d.reply(call)
      case Fault(e) => r == Err(e)
      case Done(resid) =>
        && (0 <= resid <= 2048 * sectors ==> r == Ok(all[..2048 * sectors - resid]))
        && (resid < 0 ==> r == Ok(all))
        && (resid > 2048 * sectors ==> r == Ok([]))
  {
    var all := Extent(d, lba, sectors);
    assert all[..2048 * sectors] == all;
  }

  /** The header fields the source looks at after the ioctl. */
  datatype SgHdr = SgHdr(failed: Option<IoError>, resid: int)

  class ScsiDev {
    const drive: Drive
    var log: seq<Request>

    constructor (drive: Drive)
      ensures this.drive == drive && log == []
    {
      this.drive := drive;
      log := [];
    }

    /** The kernel and the drive: decode the command block, transfer, report. */
    method SgIo(cdb: seq<byte>, buf: array<byte>) returns (hdr: SgHdr)
      requires |cdb| == 10 && buf.Length == 2048 * CdbRequest(cdb).sectors
      modifies this`log, buf
      ensures log == old(log) + [CdbRequest(cdb)]
      ensures match drive.reply(|old(log)|)
              case Fault(e) => hdr.failed == Some(e)
              case Done(resid) => (
                && hdr == SgHdr(None, resid)
                && buf[..Kept(buf.Length, resid)]
                   == Extent(drive, CdbRequest(cdb).lba, CdbRequest(cdb).sectors)[..Kept(buf.Length, resid)])
    {
      var req := CdbRequest(cdb);
      match drive.reply(|log|) {
        case Fault(e) =>
          hdr := SgHdr(Some(e), 0);
        case Done(resid) =>
          var data := Extent(drive, req.lba, req.sectors);
          forall i | 0 <= i < Kept(buf.Length, resid) { buf[i] := data[i]; }
          hdr := SgHdr(None, resid);
      }
      log := log + [req];
    }

    method FromDev(cdb: seq<byte>, dxferLen: nat) returns (r: Result<seq<byte>, IoError>)
      requires |cdb| == 10 && dxferLen == 2048 * CdbRequest(cdb).sectors
      modifies this`log
      ensures log == old(log) + [CdbRequest(cdb)]
      ensures r == Transfer(drive, |old(log)|, CdbRequest(cdb).lba, CdbRequest(cdb).sectors)
    {
      var buf := new byte[dxferLen](_ => 0);
      var hdr := SgIo(cdb, buf);
      if hdr.failed.Some? {
        return Err(hdr.failed.value);
      }
      var resid := if hdr.resid < 0 then 0 else hdr.resid;
      var got := if dxferLen < resid then 0 else dxferLen - resid;
      r := Ok(buf[..got]);
    }

    method Read10(lba: u32, sectors: u16) returns (r: Result<seq<byte>, IoError>)
      modifies this`log
      ensures log == old(log) + [Request(lba, sectors)]
      ensures r == Transfer(drive, |old(log)|, lba, sectors)
    {
      CdbDecodes(lba, sectors);
      r := FromDev(Read10Cdb(lba, sectors), sectors * 2048);
    }
  }
}
