/** Validation of a firmware image in its slot, and the second look taken before jumping to it. */
module BootImage {
  import opened Machine
  import opened BootControl

  const IMAGE_MAGIC: u32 := 0x3147_4D49
  const FORMAT_VERSION := 1
  const MANIFEST_SIZE := 128
  const HEADER_SIZE := 1024
  const VECTOR_ALIGNMENT := 1024

  datatype ImageSlot = ImageSlot(base: u32, size: u32)
  datatype Region = Region(start: u32, end: u32)

  const SLOT_A_REGION := ImageSlot(0x0802_0000, 0x000E_0000)
  const SLOT_B_REGION := ImageSlot(0x0810_0000, 0x000E_0000)

  datatype ImageResult =
    | ImageOk | ImageInvalidArgument | ReadFailed | BadMagic | BadFormat | BadHeader | BadFlags
    | SizeOutOfRange | BadVectorAddress | BadStackPointer | BadEntryAddress | Rollback
    | SignatureInvalid | DigestInvalid

  datatype Info = Info(imageAddress: u32, imageSize: u32, vectorAddress: u32, entryAddress: u32,
                       stackPointer: u32, security: u32, build: u32)

  const NO_INFO := Info(0, 0, 0, 0, 0, 0, 0)

  /**
   * What the callbacks say about a slot: the manifest, the first two vectors behind it, and the
   * verdicts on signature and digest.
   */
  datatype Source = Source(manifest: Option<seq<u8>>, vectors: Option<seq<u8>>,
                           signatureOk: bool, digestOk: bool)

  predicate ValidSource(source: Source) {
    && (source.manifest.Some? ==> |source.manifest.value| == MANIFEST_SIZE)
    && (source.vectors.Some? ==> |source.vectors.value| == 8)
  }

  /** [start, start + length) is a non-empty part of the region, without overflow. */
  predicate InRange(start: u32, length: u32, regionStart: u32, regionSize: u32) {
    && length != 0 && start >= regionStart
    && start - regionStart <= regionSize && length <= regionSize - (start - regionStart)
  }

  predicate InRam(sp: u32, region: Region) {
    region.start < region.end && region.start < sp <= region.end
  }

  ghost predicate StackPointerOk(sp: u32, regions: seq<Region>) {
    sp % 8 == 0 && exists k :: 0 <= k < |regions| && InRam(sp, regions[k])
  }

  /** Boot_Image_IsStackPointerValid */
  method IsStackPointerValid(sp: u32, regions: seq<Region>) returns (ok: bool)
    ensures ok <==> StackPointerOk(sp, regions)
  {
    if sp % 8 != 0 {
      return false;
    }
    var k := 0;
    while k < |regions|
      invariant 0 <= k <= |regions|
      invariant forall i :: 0 <= i < k ==> !InRam(sp, regions[i])
    {
      if regions[k].start < regions[k].end && sp > regions[k].start && sp <= regions[k].end {
        assert InRam(sp, regions[k]);
        return true;
      }
      k := k + 1;
    }
    ok := false;
  }

  /** The manifest's claims about placement and identity, as far as they can be checked alone. */
  function Claimed(slot: ImageSlot, m: seq<u8>, v: seq<u8>): (info: Info)
    requires |m| == MANIFEST_SIZE && |v| == 8
  {
    Info(Add32(slot.base, HEADER_SIZE), ReadU32(m, 8), ReadU32(m, 12), ReadU32(m, 16),
         ReadU32(v, 0), ReadU32(m, 20), ReadU32(m, 24))
  }

  /** An image that may be started from this slot. */
  ghost predicate Acceptable(slot: ImageSlot, source: Source, regions: seq<Region>, minimum: u32)
    requires ValidSource(source)
  {
    && regions != [] && slot.size >= HEADER_SIZE
    && source.manifest.Some? && source.vectors.Some? && source.signatureOk && source.digestOk
    && var m, v := source.manifest.value, source.vectors.value;
       var info := Claimed(slot, m, v);
    && ReadU32(m, 0) == IMAGE_MAGIC && ReadU16(m, 4) == FORMAT_VERSION
    && ReadU16(m, 6) == HEADER_SIZE && ReadU32(m, 28) == 0
    && slot.base + HEADER_SIZE < TWO_32 && info.imageSize >= 8
    && InRange(info.imageAddress, info.imageSize, slot.base, slot.size)
    && info.vectorAddress == info.imageAddress && info.security >= minimum
    && StackPointerOk(info.stackPointer, regions)
    && info.entryAddress % 2 == 1 && info.entryAddress == ReadU32(v, 4)
    && InRange(info.entryAddress - 1, 2, info.imageAddress, info.imageSize)
  }

  /** Boot_Image_Validate: every check in order; only an acceptable image yields its data. */
  method Validate(slot: ImageSlot, source: Source, regions: seq<Region>, minimum: u32)
    returns (result: ImageResult, info: Info)
    requires ValidSource(source)
    ensures result == ImageOk <==> Acceptable(slot, source, regions, minimum)
    ensures result == ImageOk ==>
              info == Claimed(slot, source.manifest.value, source.vectors.value)
    ensures result != ImageOk ==> info == NO_INFO
    ensures result == Rollback ==>
              source.manifest.Some? && ReadU32(source.manifest.value, 20) < minimum
  {
    info := NO_INFO;
    if regions == [] || slot.size < HEADER_SIZE {
      return ImageInvalidArgument, info;
    }
    if source.manifest == None {
      return ReadFailed, info;
    }
    var m := source.manifest.value;
    if ReadU32(m, 0) != IMAGE_MAGIC {
      return BadMagic, info;
    }
    if ReadU16(m, 4) != FORMAT_VERSION {
      return BadFormat, info;
    }
    var headerSize := ReadU16(m, 6);
    if headerSize != HEADER_SIZE || headerSize % VECTOR_ALIGNMENT != 0 {
      return BadHeader, info;
    }
    if ReadU32(m, 28) != 0 {
      return BadFlags, info;
    }
    var imageSize := ReadU32(m, 8);
    var imageAddress := Add32(slot.base, headerSize);
    if imageAddress < slot.base || !InRange(imageAddress, imageSize, slot.base, slot.size)
       || imageSize < 8 {
      return SizeOutOfRange, info;
    }
    var vectorAddress := ReadU32(m, 12);
    if vectorAddress != imageAddress {
      return BadVectorAddress, info;
    }
    var security := ReadU32(m, 20);
    if security < minimum {
      return Rollback, info;
    }
    if source.vectors == None {
      return ReadFailed, info;
    }
    var v := source.vectors.value;
    var stackPointer := ReadU32(v, 0);
    var stackOk := IsStackPointerValid(stackPointer, regions);
    if !stackOk {
      return BadStackPointer, info;
    }
    var entry := ReadU32(m, 16);
    if entry % 2 == 0 || entry != ReadU32(v, 4) || !InRange(entry - 1, 2, imageAddress, imageSize) {
      return BadEntryAddress, info;
    }
    if !source.signatureOk {
      return SignatureInvalid, info;
    }
    if !source.digestOk {
      return DigestInvalid, info;
    }
    info := Info(imageAddress, imageSize, vectorAddress, entry, stackPointer, security, ReadU32(m, 24));
    result := ImageOk;
  }

  /** The first words of the manifest that a packer writes, and the two vectors. */
  predicate Says(source: Source, start: u32, size: u32, entry: u32, security: u32, build: u32, sp: u32)
    requires ValidSource(source)
  {
    && source.manifest.Some? && source.vectors.Some?
    && source.manifest.value[..32] == Bytes([0x3147_4D49, 0x0400_0001, size, start, entry, security, build, 0])
    && source.vectors.value == Bytes([sp, entry])
  }

  /**
   * An image that says so is accepted exactly if it fits behind the header, its entry address is odd and lies
   * inside, its stack pointer is aligned in some RAM region, its security counter is not below the
   * minimum, and both verdicts are favourable.
   */
  lemma AcceptedExactly(slot: ImageSlot, source: Source, regions: seq<Region>, minimum: u32,
                        start: u32, size: u32, entry: u32, security: u32, build: u32, sp: u32)
    requires ValidSource(source) && Says(source, start, size, entry, security, build, sp)
    ensures Acceptable(slot, source, regions, minimum) <==>
              && start == slot.base + 1024 && 8 <= size && 1024 + size <= slot.size
              && entry % 2 == 1 && start < entry && entry + 1 <= start + size
              && sp % 8 == 0 && (exists k :: 0 <= k < |regions| && regions[k].start < sp <= regions[k].end)
              && security >= minimum && source.signatureOk && source.digestOk
    ensures start == slot.base + 1024 ==>
              Claimed(slot, source.manifest.value, source.vectors.value)
              == Info(start, size, start, entry, sp, security, build)
  {
    hide StackPointerOk, ReadU32, ReadU16, Bytes;
    ManifestWords(source.manifest.value, [0x3147_4D49, 0x0400_0001, size, start, entry, security, build, 0]);
    VectorWords(source.vectors.value, [sp, entry]);
    StackPointerIs(sp, regions);
  }

  lemma StackPointerIs(sp: u32, regions: seq<Region>)
    ensures StackPointerOk(sp, regions) <==>
              sp % 8 == 0 && exists k :: 0 <= k < |regions| && regions[k].start < sp <= regions[k].end
  {
    assert forall k :: 0 <= k < |regions| ==> (InRam(sp, regions[k]) <==> regions[k].start < sp <= regions[k].end);
  }

  lemma ManifestWords(m: seq<u8>, words: seq<u32>)
    requires |m| == MANIFEST_SIZE && |words| == 8 && m[..32] == Bytes(words)
    ensures forall k :: 0 <= k < 8 ==> ReadU32(m, 4 * k) == words[k]
    ensures ReadU32(m, 0) == words[0] && ReadU32(m, 8) == words[2] && ReadU32(m, 12) == words[3]
    ensures ReadU32(m, 16) == words[4] && ReadU32(m, 20) == words[5] && ReadU32(m, 24) == words[6]
    ensures ReadU32(m, 28) == words[7]
    ensures ReadU16(m, 4) == words[1] % 0x1_0000 && ReadU16(m, 6) == words[1] / 0x1_0000
  {
    forall k | 0 <= k < 8
      ensures ReadU32(m, 4 * k) == words[k]
    {
      ReadWord(words, k);
      FrontWord(m, Bytes(words), 4 * k);
    }
    assert ReadU32(m, 4 * 1) == words[1];
    HalfWords(m, 4);
    hide ReadU32, ReadU16, Bytes;
    assert ReadU32(m, 4 * 0) == words[0] && ReadU32(m, 4 * 2) == words[2] && ReadU32(m, 4 * 3) == words[3];
    assert ReadU32(m, 4 * 4) == words[4] && ReadU32(m, 4 * 5) == words[5] && ReadU32(m, 4 * 6) == words[6];
    assert ReadU32(m, 4 * 7) == words[7];
  }

  lemma FrontWord(m: seq<u8>, d: seq<u8>, at: nat)
    requires |d| == 32 <= |m| && m[..32] == d && at + 4 <= 32
    ensures ReadU32(m, at) == ReadU32(d, at)
  {
    assert forall i :: 0 <= i < 32 ==> m[i] == d[i];
  }

  lemma HalfWords(m: seq<u8>, at: nat)
    requires at + 4 <= |m|
    ensures ReadU16(m, at) == ReadU32(m, at) % 0x1_0000 && ReadU16(m, at + 2) == ReadU32(m, at) / 0x1_0000
  {
    var b0: nat, b1: nat, b2: nat, b3: nat := m[at], m[at + 1], m[at + 2], m[at + 3];
    assert ReadU32(m, at) == (b0 + 0x100 * b1) + 0x1_0000 * (b2 + 0x100 * b3);
  }

  lemma VectorWords(v: seq<u8>, words: seq<u32>)
    requires |words| == 2 && v == Bytes(words)
    ensures ReadU32(v, 0) == words[0] && ReadU32(v, 4) == words[1]
  {
    ReadWord(words, 0);
    ReadWord(words, 1);
  }

  /** Nothing else is accepted: every acceptable image says something of this form. */
  lemma AcceptedSays(slot: ImageSlot, source: Source, regions: seq<Region>, minimum: u32)
    requires ValidSource(source) && Acceptable(slot, source, regions, minimum)
    ensures var info := Claimed(slot, source.manifest.value, source.vectors.value);
            Says(source, info.imageAddress, info.imageSize, info.entryAddress, info.security, info.build,
                 info.stackPointer)
  {
    hide StackPointerOk, InRange, ReadU32, ReadU16, Bytes;
    var m, v := source.manifest.value, source.vectors.value;
    var info := Claimed(slot, m, v);
    var words := [0x3147_4D49, 0x0400_0001, info.imageSize, info.imageAddress, info.entryAddress, info.security,
                  info.build, 0];
    HalfWords(m, 4);
    forall k | 0 <= k < 8
      ensures ReadU32(m[..32], 4 * k) == words[k]
    {
      FrontWord(m, m[..32], 4 * k);
      assert k in {0, 1, 2, 3, 4, 5, 6, 7};
    }
    WordsDetermineBytes(m[..32], words);
    WordsDetermineBytes(v, [info.stackPointer, info.entryAddress]);
  }

  // ---------------------------------------------------------------- the jump plan

  datatype JumpResult = JumpOk | JumpInvalidArgument | ImageMismatch

  datatype Plan = Plan(vectorAddress: u32, stackPointer: u32, entryAddress: u32)

  const NO_PLAN := Plan(0, 0, 0)

  /** Boot_Jump_Prepare */
  function Prepare(slot: ImageSlot, info: Info): (r: (JumpResult, Plan)) {
    if slot.size < HEADER_SIZE then (JumpInvalidArgument, NO_PLAN)
    else if slot.base > UINT32_MAX - HEADER_SIZE then (ImageMismatch, NO_PLAN)
    else if info.imageAddress != slot.base + HEADER_SIZE
            || info.vectorAddress != slot.base + HEADER_SIZE
            || info.vectorAddress % VECTOR_ALIGNMENT != 0
            || info.stackPointer % 8 != 0
            || info.entryAddress % 2 == 0
            || !InRange(info.imageAddress, info.imageSize, slot.base, slot.size)
            || !InRange(info.entryAddress - 1, 2, info.imageAddress, info.imageSize) then
      (ImageMismatch, NO_PLAN)
    else (JumpOk, Plan(info.vectorAddress, info.stackPointer, info.entryAddress))
  }

  /** The second look accepts a validated image exactly if its slot is aligned for vectors. */
  lemma ValidatedIsPreparable(slot: ImageSlot, source: Source, regions: seq<Region>, minimum: u32)
    requires ValidSource(source) && Acceptable(slot, source, regions, minimum)
    ensures var info := Claimed(slot, source.manifest.value, source.vectors.value);
            && (Prepare(slot, info).0 == JumpOk <==> slot.base % VECTOR_ALIGNMENT == 0)
            && (slot in {SLOT_A_REGION, SLOT_B_REGION} ==>
                  Prepare(slot, info)
                    == (JumpOk, Plan(slot.base + HEADER_SIZE, info.stackPointer, info.entryAddress)))
  {
    hide ReadU32, ReadU16;
    var info := Claimed(slot, source.manifest.value, source.vectors.value);
    assert info.imageAddress == slot.base + HEADER_SIZE;
  }

  /** A plan is made exactly for an image behind the header, aligned for vectors, whose entry lies inside it. */
  lemma PreparedExactly(slot: ImageSlot, info: Info)
    ensures var (r, plan) := Prepare(slot, info);
            && (r == JumpOk <==>
                  && 1024 <= slot.size && slot.base + 1024 < TWO_32
                  && info.imageAddress == info.vectorAddress == slot.base + 1024
                  && info.vectorAddress % 1024 == 0 && info.stackPointer % 8 == 0 && info.entryAddress % 2 == 1
                  && 0 < info.imageSize && 1024 + info.imageSize <= slot.size
                  && info.imageAddress < info.entryAddress
                  && info.entryAddress + 1 <= info.imageAddress + info.imageSize)
            && (r == JumpOk ==> plan == Plan(info.vectorAddress, info.stackPointer, info.entryAddress))
            && (r != JumpOk ==> plan == Plan(0, 0, 0))
            && (r == JumpInvalidArgument <==> slot.size < 1024)
  {
  }
}
