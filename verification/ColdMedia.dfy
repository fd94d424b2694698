/** The sector map and the sector-wise reads and writes of src/cold_media.c. */
module ColdMedia {
  import opened Nouns
  import opened Arith
  import opened Bytes

  const SIZE: nat := 0x0080_0000
  const SECTOR: nat := 512
  const START_LBA: nat := 1048576
  const EXTENT: nat := 16386

  /** Where a logical byte lies: the sector, the place in it, and the bytes to the end of what the
      sector holds of the window. */
  datatype Place = Place(lba: nat, within: nat, available: nat)

  /** `translate`; no answer is the range error. */
  function Translate(logical: nat): (p: Option<Place>)
    ensures p.Some? <==> logical < SIZE
    ensures p.Some? ==> START_LBA < p.value.lba < START_LBA + EXTENT && p.value.within + p.value.available <= SECTOR && p.value.available > 0
  {
    if logical >= SIZE then None
    else if logical < 256 then Some(Place(START_LBA + 1, logical, 256 - logical))
    else if logical < 512 then Some(Place(START_LBA + 2, logical - 256, 512 - logical))
    else
      var relative := logical - 512;
      Some(Place(START_LBA + 3 + relative / SECTOR, relative % SECTOR, SECTOR - relative % SECTOR))
  }

  function Lba(i: nat): nat
    requires i < SIZE
  {
    Translate(i).value.lba
  }

  function Within(i: nat): nat
    requires i < SIZE
  {
    Translate(i).value.within
  }

  /** Different bytes of the window lie in different places, and the two superblock slots in
      different sectors. */
  lemma PlacesApart(i: nat, j: nat)
    requires i < SIZE && j < SIZE
    ensures Lba(i) == Lba(j) && Within(i) == Within(j) ==> i == j
    ensures i < 256 <= j < 512 ==> Lba(i) != Lba(j)
    ensures i < 512 <= j ==> Lba(i) != Lba(j)
  {
    if i >= 512 && j >= 512 {
      DivMod(i - 512, SECTOR);
      DivMod(j - 512, SECTOR);
    }
  }

  /** The bytes that follow within the available stretch lie behind each other in one sector. */
  lemma Stretch(i: nat, k: nat)
    requires i < SIZE && k < Translate(i).value.available
    ensures i + k < SIZE && Lba(i + k) == Lba(i) && Within(i + k) == Within(i) + k
  {
    if i >= 512 {
      var r := i - 512;
      DivMod(r, SECTOR);
      QuotientUnique(r + k, SECTOR, r / SECTOR, r % SECTOR + k);
    }
  }

  type Disk = map<nat, seq<Byte>>

  /** The extent is there, in whole sectors. */
  predicate DiskOk(d: Disk) {
    forall lba :: START_LBA <= lba < START_LBA + EXTENT ==> lba in d && |d[lba]| == SECTOR
  }

  /** The byte of the flat window. */
  function Flat(d: Disk, i: nat): Byte
    requires DiskOk(d) && i < SIZE
  {
    d[Lba(i)][Within(i)]
  }

  /** The place holds one of these bytes of the window. */
  predicate Covers(off: nat, k: nat, lba: nat, w: nat) {
    exists i :: off <= i < off + k && i < SIZE && Lba(i) == lba && Within(i) == w
  }

  /** The disk with the first `k` bytes written at `off`, and nothing else changed. */
  predicate Wrote(d0: Disk, d: Disk, off: nat, k: nat, src: seq<Byte>) {
    && DiskOk(d0) && DiskOk(d) && d.Keys == d0.Keys && k <= |src| && off + |src| <= SIZE
    && (forall i :: 0 <= i < k ==> Flat(d, off + i) == src[i])
    && (forall lba :: lba in d0 ==> |d[lba]| == |d0[lba]|)
    && (forall lba, w :: lba in d0 && 0 <= w < |d0[lba]| && !Covers(off, k, lba, w) ==> d[lba][w] == d0[lba][w])
  }

  /** A sector with `n` bytes of the source in it. */
  predicate Filled(sector: seq<Byte>, before: seq<Byte>, within: nat, n: nat, src: seq<Byte>, k: nat) {
    && |sector| == |before| == SECTOR && within + n <= SECTOR && k + n <= |src|
    && (forall w :: within <= w < within + n ==> sector[w] == src[k + (w - within)])
    && (forall w :: 0 <= w < SECTOR && !(within <= w < within + n) ==> sector[w] == before[w])
  }

  /** Storing the next sector. */
  lemma WroteMore(d0: Disk, d: Disk, off: nat, k: nat, src: seq<Byte>, n: nat, sector: seq<Byte>)
    requires Wrote(d0, d, off, k, src) && 0 < n && k + n <= |src| && n <= Translate(off + k).value.available
    requires Filled(sector, d[Lba(off + k)], Within(off + k), n, src, k)
    ensures Wrote(d0, d[Lba(off + k) := sector], off, k + n, src)
  {
    hide Translate;
    var (lba, within) := (Lba(off + k), Within(off + k));
    var d' := d[lba := sector];
    forall i | 0 <= i < k + n
      ensures Flat(d', off + i) == src[i]
    {
      if i < k {
        BeforeStays(d, off, k, n, i, sector, src);
      } else {
        Stretch(off + k, i - k);
      }
    }
    forall l, w | l in d0 && 0 <= w < |d0[l]| && !Covers(off, k + n, l, w)
      ensures d'[l][w] == d0[l][w]
    {
      CoversLess(off, k, n, l, w);
      CoversStretch(off, k, n, w);
    }
  }

  lemma CoversLess(off: nat, k: nat, n: nat, lba: nat, w: nat)
    requires !Covers(off, k + n, lba, w)
    ensures !Covers(off, k, lba, w)
  {
  }

  lemma CoversStretch(off: nat, k: nat, n: nat, w: nat)
    requires off + k + n <= SIZE && 0 < n <= Translate(off + k).value.available
    ensures Within(off + k) <= w < Within(off + k) + n ==> Covers(off, k + n, Lba(off + k), w)
  {
    hide Translate;
    if Within(off + k) <= w < Within(off + k) + n {
      var i := off + k + (w - Within(off + k));
      Stretch(off + k, w - Within(off + k));
      assert off <= i < off + (k + n) && Lba(i) == Lba(off + k) && Within(i) == w;
    }
  }

  /** Bytes written before are not in the way of the next stretch. */
  lemma BeforeStays(d: Disk, off: nat, k: nat, n: nat, i: nat, sector: seq<Byte>, src: seq<Byte>)
    requires DiskOk(d) && i < k && off + k + n <= SIZE && 0 < n <= Translate(off + k).value.available
    requires Filled(sector, d[Lba(off + k)], Within(off + k), n, src, k)
    ensures Flat(d[Lba(off + k) := sector], off + i) == Flat(d, off + i)
  {
    hide Translate;
    var w := Within(off + i);
    if Lba(off + i) == Lba(off + k) && Within(off + k) <= w < Within(off + k) + n {
      Stretch(off + k, w - Within(off + k));
      PlacesApart(off + i, off + k + (w - Within(off + k)));
    }
  }

  datatype Status = Fine | Range | ReadError | WriteError | WriteUnknown | Expired | ResetRequired | ReadOnly | Busy

  /** What the backend does at its k-th command: a read works or not; a write works, fails without
      reaching the medium, or fails having left anything at all in its sector. */
  datatype Write = Stored | Refused | Torn(sector: seq<Byte>)

  class Media {
    var disk: Disk
    const readWorks: nat -> bool
    const writeDoes: nat -> Write
    const expired: nat -> bool
    var command: nat
    const sector: array<Byte>
    var owner: bool
    var resetRequired: bool
    const readOnly: bool

    ghost predicate Valid()
      reads this
    {
      sector.Length == SECTOR && DiskOk(disk)
      && forall k :: writeDoes(k).Torn? ==> |writeDoes(k).sector| == SECTOR
    }

    constructor (disk: Disk, readWorks: nat -> bool, writeDoes: nat -> Write, expired: nat -> bool, readOnly: bool)
      requires DiskOk(disk) && forall k :: writeDoes(k).Torn? ==> |writeDoes(k).sector| == SECTOR
      ensures Valid() && this.disk == disk && !owner && !resetRequired && fresh(sector)
    {
      this.disk, this.readWorks, this.writeDoes, this.expired, this.readOnly := disk, readWorks, writeDoes, expired, readOnly;
      command, owner, resetRequired := 0, false, false;
      sector := new Byte[SECTOR];
    }

    /** The backend does all that it is told, and in time. */
    ghost predicate Works() {
      forall k: nat :: readWorks(k) && writeDoes(k).Stored? && !expired(k)
    }

    /** What turns a command away before the backend is asked. */
    function Gate(off: nat, len: nat, writing: bool): Status
      reads `resetRequired, `owner
    {
      if len == 0 || off + len > SIZE then Range
      else if resetRequired then ResetRequired
      else if writing && readOnly then ReadOnly
      else if owner then Busy
      else Fine
    }

    /** The backend's read of one sector. */
    method BackendRead(lba: nat) returns (ok: bool)
      requires Valid() && START_LBA <= lba < START_LBA + EXTENT
      modifies `command, sector
      ensures (ok ==> sector[..] == disk[lba]) && (Works() ==> ok)
    {
      ok := readWorks(command);
      command := command + 1;
      if ok {
        var s := disk[lba];
        forall i | 0 <= i < SECTOR {
          sector[i] := s[i];
        }
      }
    }

    /** The backend's write of one sector, and whether it was submitted. */
    method BackendWrite(lba: nat) returns (ok: bool, submitted: bool)
      requires Valid() && START_LBA <= lba < START_LBA + EXTENT
      modifies `command, `disk
      ensures Valid() && (ok ==> submitted && disk == old(disk)[lba := sector[..]]) && (Works() ==> ok)
      ensures !ok && !submitted ==> disk == old(disk)
      ensures disk.Keys == old(disk).Keys && forall l :: l in old(disk) && l != lba ==> disk[l] == old(disk)[l]
    {
      var does := writeDoes(command);
      command := command + 1;
      match does
      case Stored => disk := disk[lba := sector[..]]; return true, true;
      case Refused => return false, false;
      case Torn(s) => disk := disk[lba := s]; return false, true;
    }

    /** `cold_media_read`: success is the flat window's bytes. */
    method Read(off: nat, dst: array<Byte>) returns (status: Status)
      requires Valid() && dst != sector
      modifies `command, `owner, `resetRequired, sector, dst
      ensures disk == old(disk) && Valid()
      ensures status.Fine? ==> off + dst.Length <= SIZE && forall i :: 0 <= i < dst.Length ==> dst[i] == Flat(disk, off + i)
      ensures var gate := old(Gate(off, dst.Length, false));
              if gate.Fine? then
                && (status.Fine? || status.Expired? || status.ReadError?) && (Works() ==> status.Fine?)
                && !owner && resetRequired == !status.Fine?
              else status == gate && command == old(command) && owner == old(owner) && resetRequired == old(resetRequired)
                   && dst[..] == old(dst[..])
    {
      if dst.Length == 0 || off + dst.Length > SIZE {
        return Range;
      }
      if resetRequired {
        return ResetRequired;
      }
      if owner {
        return Busy;
      }
      owner := true;
      var done := 0;
      status := Fine;
      while done < dst.Length && status.Fine?
        invariant 0 <= done <= dst.Length
        invariant forall i :: 0 <= i < done ==> dst[i] == Flat(disk, off + i)
        invariant (status.Fine? || status.Expired? || status.ReadError?) && (Works() ==> status.Fine?) && !resetRequired
        decreases dst.Length - done, status.Fine?
      {
        if expired(command) {
          status := Expired;
        } else {
          var p := Translate(off + done).value;
          var ok := BackendRead(p.lba);
          if !ok {
            status := ReadError;
          } else {
            var n := if dst.Length - done < p.available then dst.Length - done else p.available;
            CopyOut(off, dst, done, p.within, n);
            done := done + n;
          }
        }
      }
      owner := false;
      if !status.Fine? {
        resetRequired := true;
      }
    }

    /** The copy from the sector buffer. */
    method CopyOut(off: nat, dst: array<Byte>, done: nat, within: nat, n: nat)
      requires Valid() && dst != sector && done + n <= dst.Length && off + dst.Length <= SIZE
      requires Translate(off + done).Some? && within == Within(off + done) && 0 < n <= Translate(off + done).value.available
      requires sector[..] == disk[Lba(off + done)]
      requires forall i :: 0 <= i < done ==> dst[i] == Flat(disk, off + i)
      modifies dst
      ensures forall i :: 0 <= i < done + n ==> dst[i] == Flat(disk, off + i)
    {
      hide Translate;
      var i := 0;
      while i < n
        invariant 0 <= i <= n && forall j :: 0 <= j < done + i ==> dst[j] == Flat(disk, off + j)
      {
        Stretch(off + done, i);
        assert sector[within + i] == sector[..][within + i];
        dst[done + i] := sector[within + i];
        i := i + 1;
      }
    }

    /** `cold_media_write`: success changes exactly the window's bytes from `off` on.  A failure
        leaves the bytes done before it written, may have changed the one sector it was writing,
        and nothing else. */
    method WriteBytes(off: nat, src: seq<Byte>) returns (status: Status, done: nat)
      requires Valid()
      modifies `command, `disk, `owner, `resetRequired, sector
      ensures Valid() && done <= |src|
      ensures var gate := old(Gate(off, |src|, true));
              if gate.Fine? then
                && (status.Fine? || status.Expired? || status.ReadError? || status.WriteError? || status.WriteUnknown?)
                && (Works() ==> status.Fine?) && !owner && resetRequired == (status.WriteError? || status.WriteUnknown?)
              else status == gate && done == 0 && disk == old(disk) && command == old(command) && owner == old(owner)
                   && resetRequired == old(resetRequired)
      ensures status.Fine? ==> done == |src| && Wrote(old(disk), disk, off, |src|, src)
      ensures status != Fine && status != WriteUnknown && off + |src| <= SIZE ==> Wrote(old(disk), disk, off, done, src)
      ensures status == WriteUnknown ==> (
                done < |src| && off + |src| <= SIZE && resetRequired
                && exists d :: Wrote(old(disk), d, off, done, src) && OnlySector(d, disk, Lba(off + done)))
    {
      done := 0;
      if off + |src| <= SIZE {
        NothingWrote(disk, off, src);
      }
      if |src| == 0 || off + |src| > SIZE {
        return Range, 0;
      }
      if resetRequired {
        return ResetRequired, 0;
      }
      if readOnly {
        return ReadOnly, 0;
      }
      if owner {
        return Busy, 0;
      }
      owner := true;
      status := Fine;
      while done < |src| && status.Fine?
        invariant done <= |src| && Valid()
        invariant status != WriteUnknown ==> Wrote(old(disk), disk, off, done, src)
        invariant status == WriteUnknown ==> (
                    done < |src| && resetRequired
                    && exists d :: Wrote(old(disk), d, off, done, src) && OnlySector(d, disk, Lba(off + done)))
        invariant status.Fine? || status.Expired? || status.ReadError? || status.WriteError? || status.WriteUnknown?
        invariant (Works() ==> status.Fine?) && resetRequired == (status.WriteError? || status.WriteUnknown?)
        decreases |src| - done, status.Fine?
      {
        if expired(command) {
          status := Expired;
        } else {
          status, done := WriteSector(off, src, done, old(disk));
        }
      }
      owner := false;
    }

    /** One turn of the loop of `cold_media_write`. */
    method WriteSector(off: nat, src: seq<Byte>, done: nat, ghost d0: Disk) returns (status: Status, after: nat)
      requires Valid() && done < |src| && Wrote(d0, disk, off, done, src)
      modifies `command, `disk, `resetRequired, sector
      ensures Valid() && after <= |src| && (Works() ==> status.Fine?)
      ensures status.Fine? || status.ReadError? || status.WriteError? || status.WriteUnknown?
      ensures resetRequired == (old(resetRequired) || status.WriteError? || status.WriteUnknown?)
      ensures status.Fine? ==> after > done && Wrote(d0, disk, off, after, src)
      ensures !status.Fine? ==> after == done && (status != WriteUnknown ==> disk == old(disk))
      ensures status == WriteUnknown ==> resetRequired && OnlySector(old(disk), disk, Lba(off + done))
    {
      var p := Translate(off + done).value;
      var n := if |src| - done < p.available then |src| - done else p.available;
      ghost var before := disk[p.lba];
      if p.within != 0 || n != SECTOR {
        var read := BackendRead(p.lba);
        if !read {
          return ReadError, done;
        }
      }
      FillSector(p.within, n, src, done, before);
      WroteMore(d0, disk, off, done, src, n, sector[..]);
      var ok, submitted := BackendWrite(p.lba);
      if !ok {
        resetRequired := true;
        return if submitted then WriteUnknown else WriteError, done;
      }
      return Fine, done + n;
    }

    /** The copy into the sector buffer. */
    method FillSector(within: nat, n: nat, src: seq<Byte>, done: nat, ghost before: seq<Byte>)
      requires sector.Length == SECTOR == |before| && within + n <= SECTOR && done + n <= |src|
      requires (within == 0 && n == SECTOR) || sector[..] == before
      modifies sector
      ensures Filled(sector[..], before, within, n, src, done)
    {
      var i := 0;
      while i < n
        invariant 0 <= i <= n
        invariant forall w :: within <= w < within + i ==> sector[w] == src[done + (w - within)]
        invariant forall w :: 0 <= w < SECTOR && !(within <= w < within + n) ==> sector[w] == before[w]
      {
        sector[within + i] := src[done + i];
        i := i + 1;
      }
    }
  }

  /** The disks differ at most in one sector. */
  predicate OnlySector(d: Disk, d': Disk, lba: nat) {
    d'.Keys == d.Keys && forall l :: l in d && l != lba ==> d'[l] == d[l]
  }

  lemma NothingWrote(d: Disk, off: nat, src: seq<Byte>)
    requires DiskOk(d) && off + |src| <= SIZE
    ensures Wrote(d, d, off, 0, src)
  {
  }
}
