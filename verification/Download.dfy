/**
 The image download (`src/aknano_image_download.c`): byte-range requests one after the other, each reply
 hashed and written to the slot that is not running, until the expected size is reached.

 The server is any sequence of replies. SHA-256 and the bootloader's image check are parameters.
 */
module Download {
  import opened Bytes
  import opened NorFlash

  const MAX_FIRMWARE_SIZE := 0x10_0000
  const REQUEST_LENGTH := 4096 * 4
  const HTTP_PARTIAL_CONTENT := 206

  /** What became of one request: `ok` unless the connection failed. */
  datatype Reply = Reply(ok: bool, body: seq<uint8>, code: int)

  datatype Request = Request(start: nat, end: int)

  /** The connection: the replies it will give, and the requests made so far. Once the script is over
      the connection is dead. */
  class NetworkContext {
    const script: seq<Reply>
    var requests: seq<Request>
    var replyBody: seq<uint8>
    var replyHttpCode: int

    constructor (script: seq<Reply>)
      ensures this.script == script && requests == []
    {
      this.script := script;
      requests, replyBody, replyHttpCode := [], [], 0;
    }

    /** `aknano_mtls_send_http_request` with a byte range. */
    method SendHttpRequest(start: nat, end: int) returns (pass: bool)
      modifies this
      ensures requests == old(requests) + [Request(start, end)]
      ensures pass == (old(|requests|) < |script| && script[old(|requests|)].ok)
      ensures pass ==> replyBody == script[old(|requests|)].body && replyHttpCode == script[old(|requests|)].code
    {
      var n := |requests|;
      requests := requests + [Request(start, end)];
      pass := n < |script| && script[n].ok;
      if pass {
        replyBody, replyHttpCode := script[n].body, script[n].code;
      }
    }
  }

  // ---------- what a sequence of replies amounts to ----------

  /** The bodies of the first `n` replies, one after the other. */
  function Bodies(script: seq<Reply>, n: nat): seq<uint8>
    requires n <= |script|
  {
    if n == 0 then [] else Bodies(script, n - 1) + script[n - 1].body
  }

  lemma {:induction false} BodiesGrow(script: seq<Reply>, m: nat, n: nat)
    requires m <= n <= |script|
    ensures |Bodies(script, m)| <= |Bodies(script, n)|
  {
    if m < n {
      BodiesGrow(script, m, n - 1);
    }
  }

  /** A reply the loop goes on from. */
  predicate Usable(r: Reply) {
    r.ok && r.body != [] && r.code == HTTP_PARTIAL_CONTENT
  }

  /** The first `n` replies are good and reach the expected size exactly with the last one. */
  ghost predicate Delivers(script: seq<Reply>, n: nat, size: nat) {
    && n <= |script|
    && (forall i | 0 <= i < n :: Usable(script[i]))
    && |Bodies(script, n)| == size
  }

  /** Every reply but the last is a whole number of sectors. */
  ghost predicate WholeSectors(script: seq<Reply>, n: nat)
    requires n <= |script|
  {
    forall i | 0 <= i < n - 1 :: |script[i].body| % SECTOR == 0
  }

  lemma {:induction false} WholeSectorsAligned(script: seq<Reply>, n: nat, k: nat)
    requires n <= |script| && k < n && WholeSectors(script, n)
    ensures |Bodies(script, k)| % SECTOR == 0
  {
    if k > 0 {
      WholeSectorsAligned(script, n, k - 1);
    }
  }

  function Min(a: int, b: int): int {
    if a <= b then a else b
  }

  /** The request the loop makes after `n` replies: from where it is, for 16384 bytes or what is left.
      The very first one asks for 16384 bytes in any case. */
  function RequestAt(script: seq<Reply>, n: nat, size: nat): Request
    requires n <= |script|
  {
    var cur := |Bodies(script, n)|;
    Request(cur, cur + (if n == 0 then REQUEST_LENGTH else Min(REQUEST_LENGTH, size - cur)) - 1)
  }

  /** The requests made are those the replies so far call for. */
  ghost predicate Asked(requests: seq<Request>, script: seq<Reply>, size: nat) {
    forall i | 0 <= i < |requests| :: i <= |script| && requests[i] == RequestAt(script, i, size)
  }

  // ---------- the slots ----------

  /** The two image slots: sector-aligned, at least the largest firmware apart. */
  datatype Slots = Slots(image1: nat, image2: nat)

  predicate ValidSlots(s: Slots, flashSize: nat) {
    && s.image1 % SECTOR == 0 && s.image2 % SECTOR == 0
    && s.image1 + MAX_FIRMWARE_SIZE <= flashSize && s.image2 + MAX_FIRMWARE_SIZE <= flashSize
    && (s.image1 + MAX_FIRMWARE_SIZE <= s.image2 || s.image2 + MAX_FIRMWARE_SIZE <= s.image1)
  }

  /** `aknano_get_target_slot_address`. */
  function TargetSlotAddress(position: uint8, s: Slots): nat {
    if position == 1 then s.image2 else if position == 2 then s.image1 else s.image2
  }

  /** The slot that the running image occupies, for the two positions there are. */
  function RunningSlotAddress(position: uint8, s: Slots): nat
    requires position == 1 || position == 2
  {
    if position == 1 then s.image1 else s.image2
  }

  /** A change confined to the target slot leaves the running one as it is. */
  lemma RunningSlotUntouched(before: seq<uint8>, after: seq<uint8>, position: uint8, s: Slots)
    requires position == 1 || position == 2
    requires ValidSlots(s, |before|)
    requires var dst := TargetSlotAddress(position, s); SameExcept(before, after, dst, dst + MAX_FIRMWARE_SIZE)
    ensures var run := RunningSlotAddress(position, s);
            after[run..run + MAX_FIRMWARE_SIZE] == before[run..run + MAX_FIRMWARE_SIZE]
  {
  }

  /** An update goes to the other slot, and to the second one if the position is neither. */
  lemma TargetSlots(position: uint8, s: Slots)
    ensures TargetSlotAddress(position, s) == s.image1 <==> position == 2 || s.image1 == s.image2
    ensures TargetSlotAddress(position, s) == s.image2 <==> position != 2 || s.image1 == s.image2
  {
  }

  // ---------- the download ----------

  /** `HandleReceivedData`: refuses data that would reach the size limit, otherwise writes it. */
  method HandleReceivedData(flash: Flash, data: seq<uint8>, offset: nat, partition: nat) returns (ret: int)
    requires flash.Valid() && partition % SECTOR == 0 && partition + MAX_FIRMWARE_SIZE <= flash.cells.Length
    modifies flash.cells
    ensures ret <= 0
    ensures SameExcept(old(flash.cells[..]), flash.cells[..], partition, partition + MAX_FIRMWARE_SIZE)
    ensures offset + |data| >= MAX_FIRMWARE_SIZE ==> ret == -1 && flash.cells[..] == old(flash.cells[..])
    ensures offset + |data| < MAX_FIRMWARE_SIZE && offset % SECTOR == 0 && flash.working ==> ret == 0
    ensures ret == 0 && offset % SECTOR == 0 ==>
              flash.cells[partition..partition + offset + |data|]
              == old(flash.cells[partition..partition + offset]) + data
  {
    ghost var before := flash.cells[..];
    if offset + |data| >= MAX_FIRMWARE_SIZE {
      return -1;
    }
    WriteStaysInSlot(partition, offset, |data|);
    ret := WriteDataToFlash(flash, partition + offset, data);
    SlotExtends(before, partition, offset, data);
  }

  lemma WriteStaysInSlot(partition: nat, offset: nat, len: nat)
    requires partition % SECTOR == 0 && offset + len < MAX_FIRMWARE_SIZE
    ensures partition <= SectorStart(partition + offset)
    ensures SectorEnd(partition + offset + len) <= partition + MAX_FIRMWARE_SIZE
    ensures offset % SECTOR == 0 ==> (partition + offset) % SECTOR == 0
  {
  }

  /** Data stored behind the first `offset` bytes of the slot extends them. */
  lemma SlotExtends(flash: seq<uint8>, partition: nat, offset: nat, data: seq<uint8>)
    requires partition + offset + |data| <= |flash|
    ensures Stored(flash, partition + offset, data)[partition..partition + offset + |data|]
         == flash[partition..partition + offset] + data
  {
  }

  /** Replies that bring an image of the expected size completely, all but the last in whole sectors. */
  ghost predicate Complete(script: seq<Reply>, n: nat, size: nat) {
    Delivers(script, n, size) && WholeSectors(script, n) && size < MAX_FIRMWARE_SIZE
  }

  /** The replies that ought to make a download succeed on a flash in working order. */
  ghost predicate Ideal(script: seq<Reply>, n: nat, size: nat, flash: Flash) {
    Complete(script, n, size) && flash.working
  }

  /** The loop after `n` good replies; `slot` is where the image goes. */
  ghost predicate Received(script: seq<Reply>, n: nat, cells: seq<uint8>, slot: nat) {
    && n <= |script|
    && (forall i | 0 <= i < n :: Usable(script[i]))
    && |Bodies(script, n)| < MAX_FIRMWARE_SIZE && slot + MAX_FIRMWARE_SIZE <= |cells|
    && (WholeSectors(script, n) ==> cells[slot..slot + |Bodies(script, n)|] == Bodies(script, n))
  }

  lemma AllWholeSectorsAligned(script: seq<Reply>, n: nat)
    requires n < |script| && WholeSectors(script, n + 1)
    ensures |Bodies(script, n)| % SECTOR == 0 && WholeSectors(script, n)
  {
    WholeSectorsAligned(script, n + 1, n);
  }

  lemma ReceivedStep(script: seq<Reply>, n: nat, before: seq<uint8>, after: seq<uint8>, slot: nat)
    requires Received(script, n, before, slot) && n < |script| && Usable(script[n])
    requires |after| == |before| && |Bodies(script, n + 1)| < MAX_FIRMWARE_SIZE
    requires |Bodies(script, n)| % SECTOR == 0 ==>
               after[slot..slot + |Bodies(script, n + 1)|] == before[slot..slot + |Bodies(script, n)|] + script[n].body
    ensures Received(script, n + 1, after, slot)
  {
    if WholeSectors(script, n + 1) {
      AllWholeSectorsAligned(script, n);
    }
  }

  /** With ideal replies, what the next one is like before the image is complete. */
  lemma IdealGoesOn(script: seq<Reply>, n: nat, m: nat, size: nat, flash: Flash)
    requires Ideal(script, m, size, flash) && n <= m && |Bodies(script, n)| < size
    ensures n < m && Usable(script[n])
    ensures |Bodies(script, n)| % SECTOR == 0 && |Bodies(script, n + 1)| < MAX_FIRMWARE_SIZE
  {
    BodiesGrow(script, n + 1, m);
    WholeSectorsAligned(script, m, n);
  }

  /** And it is complete only with the last of them. */
  lemma IdealEnds(script: seq<Reply>, n: nat, m: nat, size: nat, flash: Flash)
    requires Ideal(script, m, size, flash) && n <= m && |Bodies(script, n)| >= size
    ensures n == m
  {
    if n < m {
      BodiesGrow(script, n + 1, m);
    }
  }

  /** Handing over reply number `received` at its place in the slot. */
  method StoreReply(flash: Flash, body: seq<uint8>, curByte: nat, partition: nat,
                    ghost script: seq<Reply>, ghost received: nat)
    returns (ret: int)
    requires flash.Valid() && partition % SECTOR == 0 && partition + MAX_FIRMWARE_SIZE <= flash.cells.Length
    requires Received(script, received, flash.cells[..], partition) && received < |script|
    requires curByte == |Bodies(script, received)| && body == script[received].body
    modifies flash.cells
    ensures ret <= 0
    ensures SameExcept(old(flash.cells[..]), flash.cells[..], partition, partition + MAX_FIRMWARE_SIZE)
    ensures curByte + |body| < MAX_FIRMWARE_SIZE && curByte % SECTOR == 0 && flash.working ==> ret == 0
    ensures ret == 0 && Usable(script[received]) ==> Received(script, received + 1, flash.cells[..], partition)
  {
    ghost var before := flash.cells[..];
    ret := HandleReceivedData(flash, body, curByte, partition);
    if ret == 0 && Usable(script[received]) {
      ReceivedStep(script, received, before, flash.cells[..], partition);
    }
  }

  /** The download loop. `received` is how many replies it took; if it did not end with the expected
      size, no ideal sequence of replies begins the script. */
  method FetchImage(network: NetworkContext, flash: Flash, partition: nat, fileSize: uint32)
    returns (pass: bool, stored: nat, hashed: seq<uint8>, ghost received: nat)
    requires flash.Valid() && partition % SECTOR == 0 && partition + MAX_FIRMWARE_SIZE <= flash.cells.Length
    requires network.requests == []
    modifies network, flash.cells
    ensures SameExcept(old(flash.cells[..]), flash.cells[..], partition, partition + MAX_FIRMWARE_SIZE)
    ensures Asked(network.requests, network.script, fileSize)
    ensures pass && stored == fileSize ==>
              && received == |network.requests|
              && Received(network.script, received, flash.cells[..], partition)
              && hashed == Bodies(network.script, received) && |hashed| == stored
    ensures !(pass && stored == fileSize) ==> forall m: nat :: !Ideal(network.script, m, fileSize, flash)
    ensures pass && stored == fileSize ==>
              forall m: nat | Ideal(network.script, m, fileSize, flash) :: m == received
  {
    pass, stored, hashed, received := true, 0, [], 0;
    var numReqBytes := REQUEST_LENGTH;
    var curByte := 0;
    ghost var script := network.script;
    while pass && curByte < fileSize
      invariant SameExcept(old(flash.cells[..]), flash.cells[..], partition, partition + MAX_FIRMWARE_SIZE)
      invariant stored == curByte && received <= |script|
      invariant Asked(network.requests, script, fileSize)
      invariant pass ==>
                  && received == |network.requests| && Received(script, received, flash.cells[..], partition)
                  && hashed == Bodies(script, received) && |hashed| == curByte
                  && (curByte < fileSize ==>
                        numReqBytes
                        == if received == 0 then REQUEST_LENGTH else Min(REQUEST_LENGTH, fileSize - curByte))
      invariant pass ==> forall m: nat | Ideal(script, m, fileSize, flash) :: received <= m
      invariant !pass ==> forall m: nat :: !Ideal(script, m, fileSize, flash)
      decreases fileSize - curByte, pass
    {
      forall m: nat | Ideal(script, m, fileSize, flash)
        ensures received < m && Usable(script[received])
        ensures curByte % SECTOR == 0 && |Bodies(script, received + 1)| < MAX_FIRMWARE_SIZE
      {
        IdealGoesOn(script, received, m, fileSize, flash);
      }
      pass := network.SendHttpRequest(curByte, curByte + numReqBytes - 1);
      assert network.requests[received] == RequestAt(script, received, fileSize);
      assert Asked(network.requests, script, fileSize);
      if pass {
        hashed := hashed + network.replyBody;
        var ret := StoreReply(flash, network.replyBody, curByte, partition, script, received);
        if ret < 0 {
          pass := false;
          break;
        }
        if |network.replyBody| == 0 {
          break;
        }
        stored := stored + |network.replyBody|;
        curByte := curByte + |network.replyBody|;
        var left := (fileSize - curByte) % WORD;
        if left < numReqBytes {
          numReqBytes := left;
        }
        pass := network.replyHttpCode == HTTP_PARTIAL_CONTENT;
        received := received + 1;
      }
    }
    if pass && stored >= fileSize {
      forall m: nat | Ideal(script, m, fileSize, flash) ensures m == received {
        IdealEnds(script, received, m, fileSize, flash);
      }
    }
  }

  /** A slot with an image the client accepted: `n` good replies brought it, their hash is the expected one
      and the bootloader's check passed. Of replies in whole sectors the slot holds exactly the bodies. */
  ghost predicate Accepted(flash: seq<uint8>, slot: nat, script: seq<Reply>, n: nat,
                           expectedSize: nat, expectedHash: seq<uint8>,
                           sha256: seq<uint8> -> seq<uint8>, verifyImage: seq<uint8> -> bool)
  {
    && expectedSize < MAX_FIRMWARE_SIZE && slot + expectedSize <= |flash|
    && Delivers(script, n, expectedSize)
    && sha256(Bodies(script, n)) == expectedHash
    && verifyImage(flash[slot..slot + expectedSize])
    && (WholeSectors(script, n) ==> flash[slot..slot + expectedSize] == Bodies(script, n))
  }

  /** What that says of the replies and of the slot, spelled out. */
  lemma AcceptedMeans(flash: seq<uint8>, slot: nat, script: seq<Reply>, n: nat, expectedSize: nat,
                      expectedHash: seq<uint8>, sha256: seq<uint8> -> seq<uint8>,
                      verifyImage: seq<uint8> -> bool)
    requires Accepted(flash, slot, script, n, expectedSize, expectedHash, sha256, verifyImage)
    ensures n <= |script| && forall i | 0 <= i < n :: script[i].ok && script[i].body != [] && script[i].code == 206
    ensures |Bodies(script, n)| == expectedSize < 0x10_0000 && sha256(Bodies(script, n)) == expectedHash
    ensures slot + expectedSize <= |flash| && verifyImage(flash[slot..slot + expectedSize])
  {
  }

  /** And exactly which replies make a download go through. */
  lemma CompleteIff(script: seq<Reply>, n: nat, size: nat)
    ensures Complete(script, n, size) <==>
              && n <= |script| && |Bodies(script, n)| == size < 0x10_0000
              && (forall i | 0 <= i < n :: script[i].ok && script[i].body != [] && script[i].code == 206)
              && (forall i | 0 <= i < n - 1 :: |script[i].body| % 4096 == 0)
  {
  }

  /** `aknano_download_image`. Whatever the server sends, only the target slot changes, and success
      means an accepted image. For ideal replies the loop takes exactly those, and then the hash and the
      bootloader's check alone decide. */
  method DownloadImage(network: NetworkContext, flash: Flash, imagePosition: uint8, slots: Slots,
                       expectedSize: uint32, expectedHash: seq<uint8>,
                       sha256: seq<uint8> -> seq<uint8>, verifyImage: seq<uint8> -> bool)
    returns (success: bool, ghost received: nat)
    requires flash.Valid() && ValidSlots(slots, flash.cells.Length) && network.requests == []
    modifies network, flash.cells
    ensures var dst := TargetSlotAddress(imagePosition, slots);
            && SameExcept(old(flash.cells[..]), flash.cells[..], dst, dst + MAX_FIRMWARE_SIZE)
            && (success ==>
                  && received == |network.requests|
                  && Accepted(flash.cells[..], dst, network.script, received,
                              expectedSize, expectedHash, sha256, verifyImage))
    ensures Asked(network.requests, network.script, expectedSize)
    ensures forall m: nat | Ideal(network.script, m, expectedSize, flash) ::
              var image := Bodies(network.script, m);
              && (success <==> sha256(image) == expectedHash && verifyImage(image))
              && received == m == |network.requests|
              && SlotHolds(flash.cells[..], TargetSlotAddress(imagePosition, slots), image)
  {
    var dst := TargetSlotAddress(imagePosition, slots);
    var pass, stored, hashed;
    pass, stored, hashed, received := FetchImage(network, flash, dst, expectedSize);
    if stored != expectedSize {
      pass := false;
    }
    if pass {
      if sha256(hashed) != expectedHash {
        return false, received;
      }
      return verifyImage(flash.cells[dst..dst + stored]), received;
    } else {
      return false, received;
    }
  }

  // ---------- a server that honours byte ranges ----------

  /** The reply that section 14.1.2 of RFC 9110 asks for: the bytes of the range that exist. */
  predicate Answers(image: seq<uint8>, request: Request, reply: Reply) {
    && request.start < |image| && request.start <= request.end
    && reply == Reply(true, image[request.start..Min(request.end + 1, |image|)], HTTP_PARTIAL_CONTENT)
  }

  /** How many requests an image takes. */
  function Chunks(size: nat): nat {
    (size + REQUEST_LENGTH - 1) / REQUEST_LENGTH
  }

  /** The server has the image and answers each request the loop makes for it. */
  ghost predicate RangeServer(image: seq<uint8>, script: seq<Reply>) {
    forall i | 0 <= i < Chunks(|image|) :: AnswersAt(image, script, i)
  }

  predicate AnswersAt(image: seq<uint8>, script: seq<Reply>, i: nat) {
    i < |script| && Answers(image, RequestAt(script, i, |image|), script[i])
  }

  lemma ChunkBounds(size: nat, i: nat)
    ensures i < Chunks(size) <==> REQUEST_LENGTH * i < size
  {
  }

  /** Once the first `i` replies brought as many whole chunks, the next brings the next chunk. */
  lemma NextChunk(image: seq<uint8>, script: seq<Reply>, i: nat)
    requires RangeServer(image, script) && i < Chunks(|image|)
    requires i <= |script| && |Bodies(script, i)| == REQUEST_LENGTH * i
    ensures i < |script| && Usable(script[i]) && REQUEST_LENGTH * i < |image|
    ensures script[i].body == image[REQUEST_LENGTH * i..Min(REQUEST_LENGTH * (i + 1), |image|)]
  {
    ChunkBounds(|image|, i);
    assert AnswersAt(image, script, i);
  }

  /** The replies tile the image: the first `n` of them bring its first `n` chunks, without gap or
      overlap. */
  lemma {:induction false} RepliesTile(image: seq<uint8>, script: seq<Reply>, n: nat)
    requires RangeServer(image, script) && n <= Chunks(|image|)
    ensures n <= |script| && Bodies(script, n) == image[..Min(REQUEST_LENGTH * n, |image|)]
  {
    if n > 0 {
      RepliesTile(image, script, n - 1);
      ChunkBounds(|image|, n - 1);
      NextChunk(image, script, n - 1);
      Glue(image, REQUEST_LENGTH * (n - 1), Min(REQUEST_LENGTH * n, |image|));
    }
  }

  lemma Glue(s: seq<uint8>, a: nat, b: nat)
    requires a <= b <= |s|
    ensures s[..a] + s[a..b] == s[..b]
  {
  }

  /** Each reply is good, and all but the last are whole chunks. */
  lemma ChunkReply(image: seq<uint8>, script: seq<Reply>, i: nat)
    requires RangeServer(image, script) && i < Chunks(|image|)
    ensures i < |script| && Usable(script[i]) && RequestAt(script, i, |image|).start == REQUEST_LENGTH * i
    ensures i < Chunks(|image|) - 1 ==> |script[i].body| == REQUEST_LENGTH
  {
    RepliesTile(image, script, i);
    ChunkBounds(|image|, i);
    ChunkBounds(|image|, i + 1);
    NextChunk(image, script, i);
  }

  /** The ranges asked for: 16384 bytes each, the last one up to the end of the image. Only the very first
      is not cut down to the image. */
  lemma RequestedRanges(image: seq<uint8>, script: seq<Reply>, i: nat)
    requires RangeServer(image, script) && i < Chunks(|image|)
    ensures i <= |script| && RequestAt(script, i, |image|).start == 16384 * i
    ensures RequestAt(script, i, |image|).end == (if i == 0 then 16384 else Min(16384 * (i + 1), |image|)) - 1
    ensures 16384 * (Chunks(|image|) - 1) < |image| <= 16384 * Chunks(|image|)
  {
    RepliesTile(image, script, i);
    ChunkBounds(|image|, i);
  }

  /** Such a server's replies are ideal and amount to the image. */
  lemma RangeServerIsIdeal(image: seq<uint8>, script: seq<Reply>, flash: Flash)
    requires RangeServer(image, script) && |image| < MAX_FIRMWARE_SIZE && flash.working
    ensures Ideal(script, Chunks(|image|), |image|, flash) && Bodies(script, Chunks(|image|)) == image
  {
    var n := Chunks(|image|);
    RepliesTile(image, script, n);
    ChunkBounds(|image|, n);
    forall i | 0 <= i < n ensures Usable(script[i]) && (i < n - 1 ==> |script[i].body| % SECTOR == 0) {
      ChunkReply(image, script, i);
    }
  }

  /** `aknano_download_and_flash_image`. Only the target slot changes, so the running slot never does.
      From a server that honours byte ranges, an image below the size limit is asked for in exactly as
      many requests as it has chunks and ends up in the slot, and it is accepted if and only if its hash
      is the expected one and the bootloader's check passes. */
  method DownloadAndFlashImage(network: NetworkContext, connected: bool, flash: Flash,
                               imagePosition: uint8, slots: Slots,
                               expectedSize: uint32, expectedHash: seq<uint8>,
                               sha256: seq<uint8> -> seq<uint8>, verifyImage: seq<uint8> -> bool)
    returns (success: bool, ghost received: nat)
    requires flash.Valid() && ValidSlots(slots, flash.cells.Length) && network.requests == []
    modifies network, flash.cells
    ensures success ==> connected
    ensures var dst := TargetSlotAddress(imagePosition, slots);
            && SameExcept(old(flash.cells[..]), flash.cells[..], dst, dst + MAX_FIRMWARE_SIZE)
            && (success ==> Accepted(flash.cells[..], dst, network.script, received,
                                     expectedSize, expectedHash, sha256, verifyImage))
    ensures imagePosition == 1 || imagePosition == 2 ==>
              var run := RunningSlotAddress(imagePosition, slots);
              flash.cells[run..run + MAX_FIRMWARE_SIZE] == old(flash.cells[run..run + MAX_FIRMWARE_SIZE])
    ensures flash.working ==>
              Decided(network.script, connected, expectedSize, expectedHash, sha256, verifyImage, success)
    ensures forall image | Offers(image, network.script, expectedSize, flash) ::
              && (success <==> connected && sha256(image) == expectedHash && verifyImage(image))
              && (connected ==>
                    && |network.requests| == Chunks(|image|)
                    && SlotHolds(flash.cells[..], TargetSlotAddress(imagePosition, slots), image))
  {
    ghost var before := flash.cells[..];
    success, received := false, 0;
    if connected {
      success, received := DownloadImage(network, flash, imagePosition, slots,
                                         expectedSize, expectedHash, sha256, verifyImage);
      if imagePosition == 1 || imagePosition == 2 {
        RunningSlotUntouched(before, flash.cells[..], imagePosition, slots);
      }
      forall image | Offers(image, network.script, expectedSize, flash)
        ensures Ideal(network.script, Chunks(|image|), expectedSize, flash)
        ensures Bodies(network.script, Chunks(|image|)) == image
      {
        RangeServerIsIdeal(image, network.script, flash);
      }
      assert success ==> Brings(network.script, received, expectedSize, expectedHash, sha256);
      forall n: nat | flash.working && Complete(network.script, n, expectedSize)
        ensures Ideal(network.script, n, expectedSize, flash)
      {
      }
    }
  }

  ghost predicate Brings(script: seq<Reply>, n: nat, size: nat, hash: seq<uint8>, sha256: seq<uint8> -> seq<uint8>) {
    Delivers(script, n, size) && sha256(Bodies(script, n)) == hash
  }

  /** The download's result is the one it should have: no success without the replies that bring an image
      of the expected size and hash, and for complete replies hash and bootloader decide. */
  ghost predicate Decided(script: seq<Reply>, connected: bool, size: nat, hash: seq<uint8>,
                          sha256: seq<uint8> -> seq<uint8>, verifyImage: seq<uint8> -> bool, success: bool)
  {
    && (success ==> connected && exists n: nat :: Brings(script, n, size, hash, sha256))
    && (forall n: nat | Complete(script, n, size) ::
          success <==> connected && Brings(script, n, size, hash, sha256) && verifyImage(Bodies(script, n)))
  }

  /** A server that honours byte ranges has the image, of the size expected, for a flash in working order. */
  ghost predicate Offers(image: seq<uint8>, script: seq<Reply>, expectedSize: nat, flash: Flash) {
    RangeServer(image, script) && |image| == expectedSize < MAX_FIRMWARE_SIZE && flash.working
  }

  ghost predicate SlotHolds(flash: seq<uint8>, slot: nat, image: seq<uint8>) {
    slot + |image| <= |flash| && flash[slot..slot + |image|] == image
  }
}
