/** The OTA download: one firmware image fetched over any number of HTTP connections,
    written to the target slot and hashed on the way. The server, the order and cut of
    events, and the outcome of every flash call are arbitrary. */
module OtaUpdate {
  import Bits
  import opened OtaHeaders

  type byte = Bits.byte

  const OTA_MAX_RETRIES: nat := 5
  const SPI_SECTOR_SIZE: nat := 4096
  const ESP_IMAGE_MAGIC_V1: byte := 0xE9
  const ESP_IMAGE_MAGIC_V2: byte := 0xEA
  const OTA_MAX_HEADER_SIZE: nat := 1024
  const MIN_FIRMWARE_SIZE: nat := 102400
  const MAX_FIRMWARE_SIZE: nat := 0x69000
  const FLASH_SIZE: nat := 0x100000

  // ---------------------------------------------------------------------------
  // What a response means, whole

  /** The part of the image a response brings: `length` bytes from `start`, of `total`. */
  datatype Terms = Terms(status: nat, start: nat, length: nat, total: nat)

  /** What the bytes received so far on one connection amount to. */
  datatype Verdict = Waiting | Rejected | Body(terms: Terms, data: seq<byte>)

  /** The terms a header offers to a request from `offset` when the image size is
      `known`; none when the update has to fail. */
  function Offer(h: Headers, offset: nat, known: Option<nat>): (t: Option<Terms>)
    ensures t.Some? ==>
              && (t.value.status == 200 || t.value.status == 206)
              && t.value.start == (if t.value.status == 200 then 0 else offset)
              && 0 < t.value.length && t.value.start + t.value.length <= t.value.total
              && MIN_FIRMWARE_SIZE <= t.value.total <= MAX_FIRMWARE_SIZE
              && (t.value.status == 200 ==> t.value.length == t.value.total)
              && (t.value.status == 206 && known.Some? ==> t.value.total == known.value)
  {
    if h.BadStatusLine? || h.contentLength.None? || h.contentLength.value == 0 then None
    else if h.status == 200 then
      if MIN_FIRMWARE_SIZE <= h.contentLength.value <= MAX_FIRMWARE_SIZE
      then Some(Terms(200, 0, h.contentLength.value, h.contentLength.value))
      else None
    else if h.status == 206 && h.contentRange.Some? then
      var r := h.contentRange.value;
      if && r.start == offset && r.start <= r.end < r.total
         && MIN_FIRMWARE_SIZE <= r.total <= MAX_FIRMWARE_SIZE
         && h.contentLength.value == r.end - r.start + 1
         && (known.Some? ==> known.value == r.total)
      then Some(Terms(206, offset, h.contentLength.value, r.total))
      else None
    else None
  }

  predicate Magic(b: byte) {
    b == ESP_IMAGE_MAGIC_V1 || b == ESP_IMAGE_MAGIC_V2
  }

  predicate Fits(t: Terms, data: seq<byte>) {
    |data| <= t.length && (t.start == 0 && data != [] ==> Magic(data[0]))
  }

  /** What the header buffer holds of a stream. */
  function Buffered(stream: seq<byte>): seq<byte> {
    if |stream| <= OTA_MAX_HEADER_SIZE - 1 then stream else stream[..OTA_MAX_HEADER_SIZE - 1]
  }

  function JudgeBody(t: Option<Terms>, data: seq<byte>): (v: Verdict)
    ensures v.Rejected? || (t.Some? && v == Body(t.value, data))
  {
    if t.None? || !Fits(t.value, data) then Rejected else Body(t.value, data)
  }

  /** The meaning of everything received on a connection, whatever packets it came in. */
  function Judge(stream: seq<byte>, offset: nat, known: Option<nat>): Verdict {
    match HeaderEnd(Buffered(stream), 0)
    case None => if |stream| >= OTA_MAX_HEADER_SIZE - 1 then Rejected else Waiting
    case Some(e) => JudgeBody(Offer(Parse(stream[..e]), offset, known), stream[e..])
  }

  lemma BufferedExtends(s: seq<byte>, t: seq<byte>) returns (more: seq<byte>)
    ensures Buffered(s + t) == Buffered(s) + more && |more| <= |t|
    ensures |s| >= OTA_MAX_HEADER_SIZE - 1 ==> more == []
  {
    more := Buffered(s + t)[|Buffered(s)|..];
  }

  /** A stream is never re-read: once there is a body, later bytes only extend it. */
  lemma JudgeExtends(s: seq<byte>, t: seq<byte>, offset: nat, known: Option<nat>)
    requires Judge(s, offset, known).Body?
    ensures Judge(s + t, offset, known)
         == JudgeBody(Some(Judge(s, offset, known).terms), Judge(s, offset, known).data + t)
  {
    hide Offer; hide Parse; hide HeaderEnd; hide Fits;
    var more := BufferedExtends(s, t);
    HeaderEndExtends(Buffered(s), more, 0);
    var e := HeaderEnd(Buffered(s), 0).value;
    assert (s + t)[..e] == s[..e] && (s + t)[e..] == s[e..] + t;
  }

  /** A rejected stream stays rejected, so where it was cut cannot matter. */
  lemma RejectionStands(s: seq<byte>, t: seq<byte>, offset: nat, known: Option<nat>)
    requires Judge(s, offset, known).Rejected?
    ensures Judge(s + t, offset, known).Rejected?
  {
    hide Offer; hide Parse; hide HeaderEnd;
    var more := BufferedExtends(s, t);
    HeaderEndExtends(Buffered(s), more, 0);
    if HeaderEnd(Buffered(s), 0).Some? {
      var e := HeaderEnd(Buffered(s), 0).value;
      assert (s + t)[..e] == s[..e] && (s + t)[e..] == s[e..] + t;
    }
  }

  // ---------------------------------------------------------------------------
  // Flash and the rBoot writer

  type Image = s: seq<byte> | |s| == FLASH_SIZE witness seq(FLASH_SIZE, _ => 0)

  /** Where the writer goes on, and the bytes of an unfinished word it holds back. */
  datatype Writer = Writer(pos: nat, extra: seq<byte>)

  /** How the flash calls of one event go, and what they leave in the places they may
      disturb: the sector of a failed erase, and whatever lies behind a write. */
  datatype Io = Io(eraseOk: bool, readLimit: nat, writeOk: bool, endOk: bool, stageOk: bool, noise: Image) {
    predicate AllOk() {
      eraseOk && readLimit >= FLASH_SIZE && writeOk && endOk && stageOk
    }
  }

  /** A slot staged for boot: what it held, the size the server announced for the image,
      and the digests the update was given. */
  datatype Staging = Staging(rom: nat, contents: seq<byte>, total: nat,
                             expected1: Option<seq<byte>>, expected2: Option<seq<byte>>)

  function RoundDown(n: nat): (r: nat)
    ensures r <= n && r % SPI_SECTOR_SIZE == 0 && n - r < SPI_SECTOR_SIZE
  {
    n - n % SPI_SECTOR_SIZE
  }

  function Erased(flash: Image, sector: nat): Image
    requires (sector + 1) * SPI_SECTOR_SIZE <= FLASH_SIZE
  {
    var a := sector * SPI_SECTOR_SIZE;
    flash[..a] + seq(SPI_SECTOR_SIZE, _ => 0xFF) + flash[a + SPI_SECTOR_SIZE..]
  }

  /** Programming at pos leaves everything before it alone and anything behind it. */
  function Programmed(flash: Image, pos: nat, data: seq<byte>, noise: Image): Image
    requires pos + |data| <= FLASH_SIZE
  {
    flash[..pos] + data + noise[pos + |data|..]
  }

  /** Whole words go to flash, the rest waits. */
  function WholeWords(s: seq<byte>): (r: seq<byte>)
    ensures |r| <= |s| && |s| - |r| == |s| % 4
  {
    s[..|s| - |s| % 4]
  }

  /** The slot at base holds `image`, but for the bytes the writer still holds. */
  ghost predicate Holds(flash: seq<byte>, base: nat, w: Writer, image: seq<byte>) {
    && |w.extra| == |image| % 4
    && base + |image| <= |flash|
    && w.pos == base + |image| - |w.extra|
    && flash[base..w.pos] + w.extra == image
  }

  lemma WordsHeld(held: nat, image: nat, data: nat)
    requires held == image % 4
    ensures (held + data) % 4 == (image + data) % 4
  {
  }

  lemma HoldsAfterWrite(flash: Image, base: nat, w: Writer, image: seq<byte>, data: seq<byte>, noise: Image)
    requires Holds(flash, base, w, image)
    requires base + |image| + |data| <= FLASH_SIZE
    ensures var all := w.extra + data;
            && w.pos + |WholeWords(all)| <= FLASH_SIZE
            && Holds(Programmed(flash, w.pos, WholeWords(all), noise), base,
                     Writer(w.pos + |WholeWords(all)|, all[|WholeWords(all)|..]), image + data)
  {
    var all := w.extra + data;
    var words, rest := WholeWords(all), all[|WholeWords(all)|..];
    WordsHeld(|w.extra|, |image|, |data|);
    assert |rest| == |image + data| % 4;
    WriteThenHold(flash, base, w, image, data, noise, words, rest);
  }

  lemma WriteThenHold(flash: Image, base: nat, w: Writer, image: seq<byte>, data: seq<byte>, noise: Image,
                      words: seq<byte>, rest: seq<byte>)
    requires base <= w.pos && w.pos + |words| <= FLASH_SIZE
    requires flash[base..w.pos] + w.extra == image && words + rest == w.extra + data
    ensures Programmed(flash, w.pos, words, noise)[base..w.pos + |words|] + rest == image + data
  {
    var written := flash[base..w.pos];
    assert Programmed(flash, w.pos, words, noise)[base..w.pos + |words|] == written + words;
    Bits.Reassociate(written, words, rest);
    Bits.Reassociate(written, w.extra, data);
  }

  /** Finishing writes the held bytes, filled up to a word. */
  lemma HoldsAfterEnd(flash: Image, base: nat, w: Writer, image: seq<byte>, noise: Image)
    requires Holds(flash, base, w, image)
    ensures Programmed(flash, w.pos, w.extra, noise)[base..base + |image|] == image
  {
    assert Programmed(flash, w.pos, w.extra, noise)[base..base + |image|] == flash[base..w.pos] + w.extra;
  }

  /** A sector-aligned place is the start of its sector. */
  lemma SectorStart(a: nat, b: nat)
    requires a % SPI_SECTOR_SIZE == 0 && b % SPI_SECTOR_SIZE == 0
    ensures (a + b) / SPI_SECTOR_SIZE * SPI_SECTOR_SIZE == a + b
    ensures ((a + b) / SPI_SECTOR_SIZE + 1) * SPI_SECTOR_SIZE == a + b + SPI_SECTOR_SIZE
  {
  }

  lemma ErasedBehind(flash: Image, sector: nat, n: nat)
    requires (sector + 1) * SPI_SECTOR_SIZE <= FLASH_SIZE && n == sector * SPI_SECTOR_SIZE
    ensures Erased(flash, sector)[..n] == flash[..n]
  {
  }

  lemma PrefixSlice(a: seq<byte>, b: seq<byte>, from: nat, n: nat)
    requires from <= n <= |a| && n <= |b| && a[..n] == b[..n]
    ensures a[from..n] == b[from..n]
  {
    assert a[from..n] == a[..n][from..] && b[from..n] == b[..n][from..];
  }

  /** Erasing the sector that begins behind the image leaves the image alone. */
  lemma HoldsAfterErase(flash: Image, slot: nat, image: seq<byte>, sector: nat)
    requires sector * SPI_SECTOR_SIZE == slot + |image|
    requires (sector + 1) * SPI_SECTOR_SIZE <= FLASH_SIZE && flash[slot..slot + |image|] == image
    requires |image| % SPI_SECTOR_SIZE == 0
    ensures Erased(flash, sector)[slot..slot + |image|] == image
    ensures Holds(Erased(flash, sector), slot, Writer(slot + |image|, []), image)
  {
    hide Erased;
    ErasedBehind(flash, sector, slot + |image|);
    PrefixSlice(Erased(flash, sector), flash, slot, slot + |image|);
    SectorsAreWords(|image|);
    HoldsAll(Erased(flash, sector), slot, image);
  }

  lemma SectorsAreWords(n: nat)
    ensures n % SPI_SECTOR_SIZE % 4 == n % 4 && n % SPI_SECTOR_SIZE >= n % 4
  {
    var q, m := n / 4096, n % 4096;
    Bits.DivUnique(n, 4, 1024 * q + m / 4, m % 4);
  }

  lemma HoldsAll(flash: seq<byte>, slot: nat, image: seq<byte>)
    requires slot + |image| <= |flash| && |image| % 4 == 0 && flash[slot..slot + |image|] == image
    ensures Holds(flash, slot, Writer(slot + |image|, []), image)
  {
    assert image + [] == image;
  }

  // ---------------------------------------------------------------------------
  // Invariants, as predicates over the values they relate

  /** The first `received` bytes are what the slot holds; while data is accepted
      (`live`) they are also what was hashed, and otherwise they fill whole sectors. */
  ghost predicate ImageInv(live: bool, slot: nat, base: nat, received: nat, image: seq<byte>,
                           flash: Image, writer: Writer, checked: bool, hashed: seq<byte>)
  {
    && received == |image| <= MAX_FIRMWARE_SIZE
    && slot % SPI_SECTOR_SIZE == 0 && slot + MAX_FIRMWARE_SIZE <= FLASH_SIZE
    && if live then
         0 < received && base == slot && Holds(flash, base, writer, image) && (checked ==> hashed == image)
       else
         received % SPI_SECTOR_SIZE == 0 && flash[slot..slot + received] == image
  }

  lemma NothingHeld(slot: nat, base: nat, flash: Image, writer: Writer, checked: bool, hashed: seq<byte>)
    requires SlotOk(slot)
    ensures ImageInv(false, slot, base, 0, [], flash, writer, checked, hashed)
  {
  }

  lemma Rewind(live: bool, slot: nat, base: nat, received: nat, image: seq<byte>,
               flash: Image, writer: Writer, checked: bool, hashed: seq<byte>)
    requires ImageInv(live, slot, base, received, image, flash, writer, checked, hashed)
    ensures ImageInv(false, slot, base, RoundDown(received), image[..RoundDown(received)], flash, writer, checked, hashed)
  {
    var r := RoundDown(received);
    SectorsAreWords(received);
    if live {
      InFlash(flash, base, writer.pos, writer.extra, r);
    } else {
      InFlash(flash, slot, slot + received, [], r);
      assert flash[slot..slot + received] + [] == image;
    }
  }

  lemma InFlash(flash: seq<byte>, base: nat, pos: nat, extra: seq<byte>, r: nat)
    requires base <= pos <= |flash| && base + r <= pos
    ensures (flash[base..pos] + extra)[..r] == flash[base..base + r]
  {
    Bits.SubSlice(flash, base, pos, 0, r);
    assert (flash[base..pos] + extra)[..r] == flash[base..pos][..r];
  }

  /** Counts down with every attempt: retries first, then bytes to go. */
  function AttemptsLeft(retries: nat, received: nat): (n: nat)
    requires retries <= OTA_MAX_RETRIES && received <= MAX_FIRMWARE_SIZE
    ensures n <= MAX_ATTEMPTS - 1
  {
    (OTA_MAX_RETRIES - retries) * (MAX_FIRMWARE_SIZE + 1) + (MAX_FIRMWARE_SIZE - received)
  }

  const MAX_ATTEMPTS: nat := (OTA_MAX_RETRIES + 1) * (MAX_FIRMWARE_SIZE + 1)

  /** The lexicographic order behind the count: a spent retry or a longer image. */
  lemma AttemptsFall(retries: nat, received: nat, retries': nat, received': nat)
    requires retries <= retries' <= OTA_MAX_RETRIES
    requires received <= MAX_FIRMWARE_SIZE && received' <= MAX_FIRMWARE_SIZE
    requires retries < retries' || received < received'
    ensures AttemptsLeft(retries', received') < AttemptsLeft(retries, received)
  {
  }

  /** `received` counts from the last attempt end while a retry is pending, and from
      the start of this attempt otherwise. */
  ghost predicate RetryInv(retries: nat, pending: bool, received: nat, attempts: nat) {
    && retries <= OTA_MAX_RETRIES && received <= MAX_FIRMWARE_SIZE
    && attempts + AttemptsLeft(retries, received) + (if pending then 1 else 0) <= MAX_ATTEMPTS
  }

  lemma AttemptEnds(retries: nat, received: nat, attempts: nat, retries': nat, received': nat)
    requires RetryInv(retries, false, received, attempts)
    requires retries <= retries' <= OTA_MAX_RETRIES && received' <= MAX_FIRMWARE_SIZE
    requires retries < retries' || received < received'
    ensures RetryInv(retries', true, received', attempts)
  {
    AttemptsFall(retries, received, retries', received');
  }

  ghost predicate SizeInv(size: Option<nat>, received: nat) {
    match size
    case None => received == 0
    case Some(n) => MIN_FIRMWARE_SIZE <= n <= MAX_FIRMWARE_SIZE && received <= n
  }

  lemma SizeStays(size: Option<nat>, received: nat, less: nat)
    requires SizeInv(size, received) && less <= received
    ensures SizeInv(size, less)
  {
  }

  /** What a response brings is the part of `file` that it announces. */
  predicate Serves(verdict: Verdict, file: seq<byte>) {
    verdict.Body? ==>
      && verdict.terms.total == |file| && verdict.terms.start + |verdict.data| <= |file|
      && verdict.data == file[verdict.terms.start..verdict.terms.start + |verdict.data|]
  }

  /** Every response, as far as it was received and whatever it was asked for, serves
      `file`. */
  ghost predicate Honest(responses: nat -> seq<byte>, file: seq<byte>) {
    forall k: nat, n: nat, offset: nat, known: Option<nat> ::
      n <= |responses(k)| ==> Serves(Judge(responses(k)[..n], offset, known), file)
  }

  lemma ServedSoFar(responses: nat -> seq<byte>, file: seq<byte>, k: nat, n: nat, offset: nat, known: Option<nat>)
    requires Honest(responses, file) && n <= |responses(k)|
    ensures Serves(Judge(responses(k)[..n], offset, known), file)
  {
    hide Judge; hide Serves;
  }

  lemma NothingServed(offset: nat, known: Option<nat>, file: seq<byte>)
    ensures Serves(Judge([], offset, known), file)
  {
    hide Judge;
    NothingYet(offset, known);
  }

  /** Parts of a file put together are a part of it. */
  lemma ServedImage(verdict: Verdict, prefix: seq<byte>, image: seq<byte>, file: seq<byte>)
    requires Serves(verdict, file) && prefix <= file
    requires if verdict.Body? then
               verdict.terms.start <= |prefix| && image == prefix[..verdict.terms.start] + verdict.data
             else image == prefix
    ensures image <= file
  {
    if verdict.Body? {
      var start, end := verdict.terms.start, verdict.terms.start + |verdict.data|;
      assert prefix[..start] == file[..start];
      assert file[..end] == file[..start] + file[start..end];
    }
  }

  /** And as much of it as it is long is all of it. */
  lemma ServedWhole(verdict: Verdict, prefix: seq<byte>, image: seq<byte>, file: seq<byte>)
    requires Serves(verdict, file) && prefix <= file
    requires if verdict.Body? then
               verdict.terms.start <= |prefix| && image == prefix[..verdict.terms.start] + verdict.data
             else image == prefix
    ensures image <= file
    ensures verdict.Body? && verdict.terms.start + |verdict.data| == verdict.terms.total ==> image == file
  {
    ServedImage(verdict, prefix, image, file);
  }

  /** A slot is staged only with a complete image of sane size that has the digest
      given for that slot, if any digest was given. */
  ghost predicate GoodStaging(s: Staging, sha256: seq<byte> -> seq<byte>) {
    && MIN_FIRMWARE_SIZE <= |s.contents| == s.total <= MAX_FIRMWARE_SIZE
    && s.rom < 2
    && (s.expected1.Some? || s.expected2.Some? ==>
          (if s.rom == 0 then s.expected1 else s.expected2) == Some(sha256(s.contents)))
  }

  ghost predicate AllGood(stagings: seq<Staging>, sha256: seq<byte> -> seq<byte>) {
    forall i | 0 <= i < |stagings| :: GoodStaging(stagings[i], sha256)
  }

  /** Slots are sector aligned and large enough. */
  ghost predicate SlotOk(base: nat) {
    base % SPI_SECTOR_SIZE == 0 && base + MAX_FIRMWARE_SIZE <= FLASH_SIZE
  }

  ghost predicate SlotsOk(roms: seq<nat>) {
    |roms| == 2 && SlotOk(roms[0]) && SlotOk(roms[1])
  }

  predicate Given(expected1: Option<seq<byte>>, expected2: Option<seq<byte>>) {
    expected1.Some? || expected2.Some?
  }

  /** The writer and the hash stream are live. */
  ghost predicate Live(validBinary: bool, retryPending: bool, continuePending: bool) {
    validBinary && (retryPending ==> continuePending)
  }

  /** What the fields about the current response say. */
  datatype Response =
    Response(length: nat, got: nat, known: bool, status: nat, rangeEnd: nat, rangeTotal: nat, rangeValid: bool)

  const NO_RESPONSE: Response := Response(0, 0, false, 0, 0, 0, false)

  function ResponseOf(t: Terms, got: nat): Response
    requires 0 < t.start + t.length
  {
    if t.status == 206 then Response(t.length, got, true, 206, t.start + t.length - 1, t.total, true)
    else Response(t.length, got, true, t.status, 0, 0, false)
  }

  /** The response fields and the image agree with the verdict on the whole stream. */
  ghost predicate ConnInv(verdict: Verdict, connected: bool, parsed: bool, header: seq<byte>, stream: seq<byte>,
                          r: Response, requestOffset: nat, prefix: seq<byte>, image: seq<byte>,
                          sizeAsked: Option<nat>, size: Option<nat>, validBinary: bool)
  {
    if !parsed then
      && verdict.Waiting? && header == stream && |stream| < OTA_MAX_HEADER_SIZE - 1
      && image == prefix && size == sizeAsked && !r.known
      && (if connected then requestOffset == |prefix| else stream == [])
    else
      && connected && verdict.Body? && Fits(verdict.terms, verdict.data)
      && 0 < verdict.terms.length && verdict.terms.start + verdict.terms.length <= verdict.terms.total
      && verdict.terms.start == (if verdict.terms.status == 206 then |prefix| else 0)
      && (verdict.terms.status != 206 ==> verdict.terms.length == verdict.terms.total)
      && r == ResponseOf(verdict.terms, |verdict.data|)
      && size == Some(verdict.terms.total)
      && image == prefix[..verdict.terms.start] + verdict.data
      && (verdict.data != [] ==> validBinary)
  }

  /** A fresh connection has nothing to judge yet. */
  lemma FreshConnection(requestOffset: nat, image: seq<byte>, size: Option<nat>, validBinary: bool)
    ensures ConnInv(Judge([], |image|, size), false, false, [], [], NO_RESPONSE, requestOffset, image, image,
                    size, size, validBinary)
  {
  }

  lemma ConnectionOpens(verdict: Verdict, parsed: bool, header: seq<byte>, stream: seq<byte>, r: Response,
                        requestOffset: nat, prefix: seq<byte>, image: seq<byte>, asked: Option<nat>,
                        size: Option<nat>, validBinary: bool)
    requires ConnInv(verdict, false, parsed, header, stream, r, requestOffset, prefix, image, asked, size, validBinary)
    ensures !parsed && image == prefix
    ensures ConnInv(verdict, true, false, header, stream, NO_RESPONSE, |image|, prefix, image, asked, size, validBinary)
  {
  }

  lemma AttemptBegins(retries: nat, received: nat, attempts: nat)
    requires RetryInv(retries, true, received, attempts)
    ensures RetryInv(retries, false, received, attempts + 1) && attempts + 1 <= MAX_ATTEMPTS
  {
  }

  /** A packet on a connection whose header is known only extends the body. */
  lemma BodyGrows(verdict: Verdict, terms: Terms, more: seq<byte>, parsed: bool, connected: bool, header: seq<byte>,
                  stream: seq<byte>, stream': seq<byte>, r: Response, requestOffset: nat, prefix: seq<byte>,
                  image: seq<byte>, asked: Option<nat>, size: Option<nat>, validBinary: bool)
    requires ConnInv(verdict, connected, true, header, stream, r, requestOffset, prefix, image, asked, size, validBinary)
    requires verdict.Body? && terms == verdict.terms && JudgeBody(Some(terms), verdict.data + more).Body?
    ensures ConnInv(JudgeBody(Some(terms), verdict.data + more), connected, true, header, stream',
                    r.(got := r.got + |more|), requestOffset, prefix, image + more, asked, size, true)
  {
    Bits.Reassociate(prefix[..terms.start], verdict.data, more);
  }

  /** What one packet does to a header that is still incomplete. */
  lemma HeaderStep(stream: seq<byte>, data: seq<byte>, offset: nat, known: Option<nat>, buf: seq<byte>)
    requires Judge(stream, offset, known).Waiting? && |stream| < OTA_MAX_HEADER_SIZE - 1
    requires buf == stream + data[..Bits.Min(|data|, OTA_MAX_HEADER_SIZE - 1 - |stream|)]
    ensures var end := HeaderEnd(buf, 0);
            var verdict := Judge(stream + data, offset, known);
            && (end.None? ==> if |buf| >= OTA_MAX_HEADER_SIZE - 1 then verdict.Rejected?
                              else verdict.Waiting? && buf == stream + data)
            && (end.Some? ==>
                  && |stream| < end.value <= |stream| + |data|
                  && verdict == JudgeBody(Offer(Parse(buf[..end.value]), offset, known), data[end.value - |stream|..]))
  {
    hide Offer; hide Parse; hide HeaderEnd; hide Fits;
    assert buf == Buffered(stream + data);
    HeaderEndExtends(stream, data[..Bits.Min(|data|, OTA_MAX_HEADER_SIZE - 1 - |stream|)], 0);
    if HeaderEnd(buf, 0).Some? {
      var e := HeaderEnd(buf, 0).value;
      assert (stream + data)[..e] == buf[..e] && (stream + data)[e..] == data[e - |stream|..];
    }
  }

  /** What the fields decide about one more packet of the body. */
  lemma BodyStep(terms: Terms, seen: seq<byte>, data: seq<byte>, parsed: bool, connected: bool, header: seq<byte>,
                 stream: seq<byte>, r: Response, requestOffset: nat, prefix: seq<byte>, image: seq<byte>,
                 asked: Option<nat>, size: Option<nat>, validBinary: bool)
    requires ConnInv(Body(terms, seen), connected, true, header, stream, r, requestOffset, prefix, image, asked, size,
                     validBinary)
    requires data != [] && (validBinary ==> image != []) && SizeInv(size, |image|)
    ensures r.got <= r.length
    ensures |data| > r.length - r.got ==> JudgeBody(Some(terms), seen + data).Rejected?
    ensures |data| <= r.length - r.got ==>
              && SizeInv(size, |image| + |data|) && |image| + |data| <= MAX_FIRMWARE_SIZE
              && (JudgeBody(Some(terms), seen + data).Rejected? <==> !validBinary && image == [] && !Magic(data[0]))
  {
    assert |image| == terms.start + |seen|;
    assert (seen + data)[0] == if seen != [] then seen[0] else data[0];
  }

  /** A whole image restarts everything; a range continues at its offset. */
  lemma OfferStarts(terms: Terms, connected: bool, header: seq<byte>, stream: seq<byte>, requestOffset: nat,
                    requestOffset': nat, r: Response, prefix: seq<byte>, image: seq<byte>, asked: Option<nat>,
                    size: Option<nat>, validBinary: bool, validBinary': bool, verdict: Verdict)
    requires ConnInv(verdict, true, false, header, stream, r, requestOffset, prefix, image, asked, size, validBinary)
    requires 0 < terms.length && terms.start + terms.length <= terms.total
    requires terms.start == (if terms.status == 206 then |prefix| else 0)
    requires terms.status != 206 ==> terms.length == terms.total
    requires MIN_FIRMWARE_SIZE <= terms.total <= MAX_FIRMWARE_SIZE
    ensures requestOffset == |prefix| && image == prefix && size == asked
    ensures image[..terms.start] == if terms.status == 206 then image else []
    ensures SizeInv(Some(terms.total), terms.start)
    ensures ConnInv(Body(terms, []), true, true, header, stream, ResponseOf(terms, 0), requestOffset', prefix,
                    image[..terms.start], asked, Some(terms.total), validBinary')
  {
  }

  lemma ImageFacts(live: bool, slot: nat, base: nat, received: nat, image: seq<byte>, flash: Image, writer: Writer,
                   checked: bool, hashed: seq<byte>)
    requires ImageInv(live, slot, base, received, image, flash, writer, checked, hashed)
    ensures received == |image| && SlotOk(slot)
    ensures live ==> base == slot && image != [] && Holds(flash, base, writer, image) && (checked ==> hashed == image)
  {
  }

  predicate DigestOk(rom: nat, expected1: Option<seq<byte>>, expected2: Option<seq<byte>>, digest: seq<byte>) {
    Given(expected1, expected2) ==> (if rom == 0 then expected1 else expected2) == Some(digest)
  }

  /** What the response fields say at the end of a connection. */
  lemma EndOfResponse(verdict: Verdict, connected: bool, parsed: bool, header: seq<byte>, stream: seq<byte>,
                      r: Response, requestOffset: nat, prefix: seq<byte>, image: seq<byte>, asked: Option<nat>,
                      size: Option<nat>, validBinary: bool)
    requires ConnInv(verdict, connected, parsed, header, stream, r, requestOffset, prefix, image, asked, size, validBinary)
    requires SizeInv(size, |image|)
    ensures r.known == parsed == verdict.Body? && (parsed ==> r.got <= r.length && size.Some?)
    ensures parsed && r.got == r.length && size.value == |image| ==> validBinary && MIN_FIRMWARE_SIZE <= |image|
    ensures parsed && r.got == r.length && size.value != |image| ==>
              && r.status == 206 && r.rangeValid && r.rangeEnd + 1 == |image| && |prefix| < |image| < r.rangeTotal
              && |image| < size.value
    ensures parsed ==> (|verdict.data| == verdict.terms.length <==> r.got == r.length)
    ensures parsed ==> size.value == verdict.terms.total && |image| == verdict.terms.start + |verdict.data|
  {
  }

  lemma NothingYet(offset: nat, known: Option<nat>)
    ensures Judge([], offset, known).Waiting?
  {
  }

  lemma FirstAttempt()
    ensures RetryInv(0, false, 0, 1)
  {
  }

  /** The bytes of a list of packets. */
  function Concat(packets: seq<seq<byte>>): seq<byte> {
    if packets == [] then [] else Concat(packets[..|packets| - 1]) + packets[|packets| - 1]
  }

  /** What can happen to an update from outside. */
  datatype Event =
    | StartRequest(currentRom: nat, digests: Option<(Option<seq<byte>>, Option<seq<byte>>)>, urlOk: bool, dns: DnsResult)
    | DnsAnswer(resolved: bool, connectOk: bool)
    | Connected(sendOk: bool)
    | Received(data: seq<byte>, io: Io)
    | Disconnected(io: Io)
    | ConnectionError
    | TimeoutExpired
    | RetryDelayOver(dns: DnsResult)

  datatype DnsResult = DnsOk(connectOk: bool) | DnsInProgress | DnsError

  /** A one-shot timer. */
  class Timer {
    var armed: bool

    constructor ()
      ensures !armed
    {
      armed := false;
    }

    method Arm()
      modifies this
      ensures armed
    {
      armed := true;
    }

    method Disarm()
      modifies this
      ensures !armed
    {
      armed := false;
    }
  }

  class Ota {
    /** Slot addresses and the digest function. */
    const roms: seq<nat>
    const sha256: seq<byte> -> seq<byte>
    const timeoutTimer: Timer
    const retryTimer: Timer

    var inProgress: bool
    var targetRom: nat
    var targetBase: nat
    var headersParsed: bool
    var isValidBinary: bool
    /** The size of the image, once a response has told it. */
    var firmwareSize: Option<nat>
    var response: Response
    var received: nat
    var requestOffset: nat
    var retryCount: nat
    var retryPending: bool
    var continuePending: bool
    var header: seq<byte>
    var expected1: Option<seq<byte>>
    var expected2: Option<seq<byte>>

    /** The bytes fed to the SHA-256 context since it was last initialised. */
    var hashed: seq<byte>
    var flash: Image
    var writer: Writer
    /** Whether the TCP connection of this attempt is established. */
    var connected: bool

    /** The first `received` bytes of the image, what the image was when this attempt
        began, the image size known then, and all bytes received on this connection. */
    ghost var image: seq<byte>
    ghost var prefix: seq<byte>
    ghost var sizeAsked: Option<nat>
    ghost var stream: seq<byte>
    /** Connection attempts of this update, and every slot ever staged. */
    ghost var attempts: nat
    ghost var stagings: seq<Staging>

    /** What holds whether or not an update is in progress. */
    ghost predicate Settled()
      reads `attempts, `stagings
    {
      SlotsOk(roms) && AllGood(stagings, sha256) && attempts <= MAX_ATTEMPTS
    }

    /** What the update state means, whatever the timers do. */
    ghost predicate Core()
      reads this
    {
      CoreWith(Judge(stream, |prefix|, sizeAsked))
    }

    /** The same, with the response fields in step with `verdict`. */
    ghost predicate CoreWith(verdict: Verdict)
      reads this
    {
      && Settled()
      && (continuePending ==> retryPending) && (retryPending ==> inProgress)
      && (inProgress ==>
            && targetRom < 2 && received == |image| <= MAX_FIRMWARE_SIZE
            && ImageInv(Live(isValidBinary, retryPending, continuePending), roms[targetRom], targetBase, received,
                        image, flash, writer, Given(expected1, expected2), hashed)
            && SizeInv(firmwareSize, received)
            && retryCount <= OTA_MAX_RETRIES
            && RetryInv(retryCount, retryPending, if retryPending then received else |prefix|, attempts)
            && (!retryPending ==>
                  ConnInv(verdict, connected, headersParsed, header, stream, response, requestOffset, prefix, image,
                          sizeAsked, firmwareSize, isValidBinary)))
    }

    /** What holds between any two events. While an update is in progress exactly one of
        its two timers is armed, so it cannot stall. */
    ghost predicate Valid()
      reads this, timeoutTimer, retryTimer
    {
      && Core() && timeoutTimer != retryTimer && (retryPending ==> inProgress)
      && retryTimer.armed == retryPending && (inProgress ==> timeoutTimer.armed == !retryPending)
    }

    predicate Listening()
      reads `inProgress, `retryPending
    {
      inProgress && !retryPending
    }

    constructor (roms: seq<nat>, sha256: seq<byte> -> seq<byte>, flash: Image)
      requires SlotsOk(roms)
      ensures Valid() && !inProgress && stagings == [] && attempts == 0
      ensures this.roms == roms && this.sha256 == sha256 && this.flash == flash
      ensures fresh(timeoutTimer) && fresh(retryTimer)
    {
      this.roms, this.sha256, this.flash := roms, sha256, flash;
      timeoutTimer := new Timer();
      retryTimer := new Timer();
      inProgress, retryPending, continuePending, connected := false, false, false, false;
      attempts, stagings := 0, [];
      targetRom, targetBase, headersParsed, isValidBinary := 0, 0, false, false;
      firmwareSize, response, received, requestOffset, retryCount := None, NO_RESPONSE, 0, 0, 0;
      header, expected1, expected2, hashed, writer := [], None, None, [], Writer(0, []);
      image, prefix, stream, sizeAsked := [], [], [], None;
    }

    method CleanupTimers()
      modifies timeoutTimer, retryTimer
      ensures !timeoutTimer.armed && !retryTimer.armed
    {
      timeoutTimer.Disarm();
      retryTimer.Disarm();
    }

    method FailUpdate()
      requires Settled() && timeoutTimer != retryTimer
      modifies timeoutTimer, retryTimer, `retryPending, `continuePending, `isValidBinary, `inProgress
      ensures Valid() && !inProgress && !isValidBinary && !retryPending && !continuePending
      ensures !timeoutTimer.armed && !retryTimer.armed
    {
      CleanupTimers();
      retryPending, continuePending := false, false;
      isValidBinary, inProgress := false, false;
    }

    /** The attempt failed: a retry is spent and the image cut to whole sectors, or the
        update has failed. */
    twostate predicate Retried()
      reads `retryPending, `continuePending, `retryCount, `received, `image, `inProgress, `isValidBinary
    {
      && !continuePending
      && if old(retryCount) < OTA_MAX_RETRIES then
           && inProgress && retryPending && retryCount == old(retryCount) + 1
           && received == RoundDown(old(received)) <= |old(image)| && image == old(image)[..received]
         else
           !inProgress && !isValidBinary
    }

    /** Spends a retry and rewinds to the sector that may be incomplete, or gives up. */
    method TriggerReconnect()
      requires Core() && timeoutTimer != retryTimer && !retryTimer.armed
      modifies timeoutTimer, retryTimer, `retryPending, `continuePending, `isValidBinary, `inProgress
      modifies `retryCount, `received, `image
      ensures !old(Listening()) ==> unchanged(this, timeoutTimer, retryTimer)
      ensures old(Listening()) ==> Valid() && Retried()
    {
      if !inProgress || retryPending {
        return;
      }
      if retryCount < OTA_MAX_RETRIES {
        SpendRetry();
      } else {
        FailUpdate();
      }
    }

    /** Stops waiting for the network and arms the retry timer. */
    method ArmRetry(continuing: bool)
      modifies timeoutTimer, retryTimer, `retryPending, `continuePending
      ensures timeoutTimer != retryTimer ==> !timeoutTimer.armed
      ensures retryTimer.armed && retryPending && continuePending == continuing
    {
      timeoutTimer.Disarm();
      retryTimer.Arm();
      continuePending, retryPending := continuing, true;
    }

    method RewindToSector()
      requires received == |image|
      modifies `received, `image
      ensures received == RoundDown(old(received)) && image == old(image)[..received]
    {
      received, image := RoundDown(received), image[..RoundDown(received)];
    }

    method SpendRetry()
      requires Core() && timeoutTimer != retryTimer && Listening() && !retryTimer.armed && retryCount < OTA_MAX_RETRIES
      modifies timeoutTimer, retryTimer, `retryPending, `continuePending
      modifies `retryCount, `received, `image
      ensures Valid() && !continuePending
      ensures retryPending && retryCount == old(retryCount) + 1
      ensures received == RoundDown(old(received)) && image == old(image)[..received]
    {
      hide ImageInv; hide ConnInv; hide Judge; hide AllGood; hide SlotOk; hide RetryInv; hide SizeInv; hide RoundDown;
      SizeStays(firmwareSize, received, RoundDown(received));
      Rewind(isValidBinary, roms[targetRom], targetBase, received, image, flash, writer, Given(expected1, expected2), hashed);
      AttemptEnds(retryCount, |prefix|, attempts, retryCount + 1, RoundDown(received));
      ArmRetry(false);
      RewindToSector();
      retryCount := retryCount + 1;
    }

    /** Asks for the next range at the exact offset, without spending a retry. */
    method ScheduleRangeContinue()
      requires Core() && timeoutTimer != retryTimer && !retryTimer.armed
      requires Listening() ==> |prefix| < received
      modifies timeoutTimer, retryTimer, `retryPending, `continuePending
      ensures !old(Listening()) ==> unchanged(this, timeoutTimer, retryTimer)
      ensures old(Listening()) ==> Valid() && retryPending && continuePending
    {
      hide ImageInv; hide ConnInv; hide Judge; hide AllGood; hide SlotOk; hide RetryInv; hide SizeInv;
      if !inProgress || retryPending {
        return;
      }
      AttemptEnds(retryCount, |prefix|, attempts, retryCount, received);
      ArmRetry(true);
    }

    /** The DNS answer: on success the connection attempt starts. */
    method DnsFound(resolved: bool, connectOk: bool)
      requires Valid()
      modifies timeoutTimer, retryTimer, `retryPending, `continuePending, `isValidBinary, `inProgress
      modifies `retryCount, `received, `image
      ensures Valid()
      ensures !old(Listening()) ==> unchanged(this, timeoutTimer, retryTimer)
      ensures old(Listening()) && !(resolved && connectOk) ==> Retried()
      ensures old(Listening()) && resolved && connectOk ==>
                unchanged(timeoutTimer, retryTimer, `retryPending, `inProgress, `isValidBinary, `retryCount, `received, `image)
    {
      hide Core;
      if !inProgress || retryPending {
        return;
      }
      if resolved && connectOk {
        return;
      }
      timeoutTimer.Disarm();
      TriggerReconnect();
    }

    /** The start of an attempt: a DNS lookup that may answer at once. */
    method LookUp(dns: DnsResult)
      requires Core() && timeoutTimer != retryTimer && Listening() && !retryTimer.armed
      modifies timeoutTimer, retryTimer, `retryPending, `continuePending, `isValidBinary, `inProgress
      modifies `retryCount, `received, `image
      ensures Valid()
      ensures dns == DnsError || dns == DnsOk(false) ==> Retried()
      ensures dns == DnsOk(true) || dns == DnsInProgress ==>
                && timeoutTimer.armed
                && unchanged(retryTimer, `retryPending, `inProgress, `isValidBinary, `retryCount, `received, `image)
    {
      hide Core;
      timeoutTimer.Arm();
      match dns
      case DnsOk(connectOk) => DnsFound(true, connectOk);
      case DnsInProgress =>
      case DnsError =>
        timeoutTimer.Disarm();
        TriggerReconnect();
    }

    method ForgetResponse()
      modifies `headersParsed, `header, `stream, `connected
      modifies `response
      ensures !headersParsed && header == [] && stream == [] && !connected
      ensures response == NO_RESPONSE
    {
      headersParsed, header, stream, connected := false, [], [], false;
      response := NO_RESPONSE;
    }

    ghost method CountAttempt()
      modifies `prefix, `sizeAsked, `attempts
      ensures prefix == image && sizeAsked == firmwareSize && attempts == old(attempts) + 1
    {
      prefix, sizeAsked, attempts := image, firmwareSize, attempts + 1;
    }

    method ClearRetry()
      modifies `retryPending, `continuePending, `isValidBinary
      ensures !retryPending && !continuePending
      ensures isValidBinary == Live(old(isValidBinary), true, old(continuePending))
    {
      var continuingRange := continuePending;
      continuePending, retryPending := false, false;
      if !continuingRange {
        isValidBinary := false;
      }
    }

    /** A new attempt, from exactly the image so far. */
    method BeginAttempt()
      requires Core() && inProgress && retryPending
      modifies `retryPending, `continuePending, `isValidBinary, `headersParsed, `header, `stream, `connected
      modifies `response
      modifies `prefix, `sizeAsked, `attempts
      ensures Core() && Listening() && !continuePending && attempts == old(attempts) + 1
      ensures isValidBinary == (old(isValidBinary) && old(continuePending))
      ensures prefix == image && !connected && !headersParsed && stream == []
    {
      hide ImageInv; hide ConnInv; hide Judge; hide AllGood; hide SlotOk; hide RetryInv; hide SizeInv;
      AttemptBegins(retryCount, received, attempts);
      ClearRetry();
      ForgetResponse();
      CountAttempt();
      FreshConnection(requestOffset, image, firmwareSize, isValidBinary);
    }

    /** The one-shot retry timer; it fires only while armed. */
    method RetryTimer(dns: DnsResult)
      requires Valid()
      modifies this, timeoutTimer, retryTimer
      ensures Valid()
      ensures !old(retryTimer.armed) ==> unchanged(this, timeoutTimer, retryTimer)
      ensures old(retryTimer.armed) ==> attempts == old(attempts) + 1 && prefix == old(image)
      ensures old(retryTimer.armed) ==> !connected && stream == [] && (inProgress ==> image <= old(image))
      ensures unchanged(`stagings, `targetRom, `expected1, `expected2, `flash, `writer, `hashed, `firmwareSize)
      ensures old(retryTimer.armed) && (dns == DnsOk(true) || dns == DnsInProgress) ==>
                && Listening() && image == old(image) && retryCount == old(retryCount)
                && isValidBinary == (old(isValidBinary) && old(continuePending))
    {
      hide Core;
      if !retryTimer.armed {
        return;
      }
      retryTimer.Disarm();
      BeginAttempt();
      LookUp(dns);
    }

    /** The one-shot inactivity timer; it fires only while armed. */
    method Timeout()
      requires Valid()
      modifies timeoutTimer, retryTimer, `retryPending, `continuePending, `isValidBinary, `inProgress
      modifies `retryCount, `received, `image
      ensures Valid()
      ensures !old(timeoutTimer.armed) ==> unchanged(this, timeoutTimer, retryTimer)
      ensures !old(Listening()) ==> unchanged(this)
      ensures old(Listening()) ==> Retried()
    {
      hide Core;
      if !timeoutTimer.armed {
        return;
      }
      timeoutTimer.Disarm();
      if !inProgress || retryPending {
        return;
      }
      TriggerReconnect();
    }

    /** A TCP error. */
    method TcpRecon()
      requires Valid()
      modifies timeoutTimer, retryTimer, `retryPending, `continuePending, `isValidBinary, `inProgress
      modifies `retryCount, `received, `image
      ensures Valid()
      ensures !old(Listening()) ==> unchanged(this, timeoutTimer, retryTimer)
      ensures old(Listening()) ==> Retried()
    {
      hide Core;
      if !inProgress || retryPending {
        return;
      }
      timeoutTimer.Disarm();
      TriggerReconnect();
    }

    method MarkConnected()
      modifies `requestOffset, `connected
      modifies `response
      ensures requestOffset == received && connected
      ensures response == NO_RESPONSE
    {
      requestOffset, connected := received, true;
      response := NO_RESPONSE;
    }

    /** The connection is up: the request asks for everything from `received` on. */
    method TcpConnect(sendOk: bool)
      requires Valid()
      requires Listening() ==> !connected
      modifies timeoutTimer, retryTimer, `retryPending, `continuePending, `isValidBinary, `inProgress
      modifies `retryCount, `received, `image, `requestOffset, `connected
      modifies `response
      ensures Valid()
      ensures !old(Listening()) ==> unchanged(this, timeoutTimer, retryTimer)
      ensures old(Listening()) ==> connected && requestOffset == old(received) == |prefix|
      ensures old(Listening()) && sendOk ==> Listening() && received == old(received) && image == old(image)
      ensures old(Listening()) && !sendOk ==> Retried()
    {
      hide Core;
      if !inProgress || retryPending {
        return;
      }
      OpenConnection();
      if !sendOk {
        timeoutTimer.Disarm();
        TriggerReconnect();
      }
    }

    method OpenConnection()
      requires Core() && Listening() && !connected
      modifies `requestOffset, `connected
      modifies `response
      ensures Core() && connected && requestOffset == received == |prefix|
    {
      hide ImageInv; hide ConnInv; hide Judge; hide AllGood; hide SlotOk; hide RetryInv; hide SizeInv;
      ConnectionOpens(Judge(stream, |prefix|, sizeAsked), headersParsed, header, stream,
                      response,
                      requestOffset, prefix, image, sizeAsked, firmwareSize, isValidBinary);
      MarkConnected();
    }

    /** Rebuilds the hash from the slot, 256 bytes at a time; reads behind readLimit fail. */
    method RehashFlash(readLimit: nat) returns (ok: bool)
      requires targetBase + received <= FLASH_SIZE
      modifies `hashed
      ensures ok && Given(expected1, expected2) ==> hashed == flash[targetBase..targetBase + received]
      ensures readLimit >= FLASH_SIZE ==> ok
    {
      if expected1.None? && expected2.None? {
        return true;
      }
      hashed := [];
      var addr, endAddr := targetBase, targetBase + received;
      while addr < endAddr
        invariant targetBase <= addr <= endAddr
        invariant hashed == flash[targetBase..addr]
      {
        var chunkLen := if addr + 256 > endAddr then endAddr - addr else 256;
        if addr + chunkLen > readLimit {
          return false;
        }
        hashed := hashed + flash[addr..addr + chunkLen];
        addr := addr + chunkLen;
      }
      return true;
    }

    /** Prepares the slot for bytes at `received`: nothing below is touched, because
        that place starts a sector. */
    method BeginImage(first: byte, io: Io) returns (ok: bool)
      requires SlotsOk(roms) && targetRom < 2 && !isValidBinary && received < MAX_FIRMWARE_SIZE
      requires ImageInv(false, roms[targetRom], targetBase, received, image, flash, writer, Given(expected1, expected2), hashed)
      modifies `isValidBinary, `targetBase, `flash, `writer, `hashed
      ensures received == 0 && !Magic(first) ==> !ok
      ensures io.AllOk() && (received == 0 ==> Magic(first)) ==> ok
      ensures ok ==>
                && isValidBinary && targetBase == roms[targetRom] && Holds(flash, targetBase, writer, image)
                && (Given(expected1, expected2) ==> hashed == image)
    {
      if received == 0 && !Magic(first) {
        return false;
      }
      isValidBinary, targetBase := true, roms[targetRom];
      SectorStart(targetBase, received);
      HoldsAfterErase(flash, targetBase, image, (targetBase + received) / SPI_SECTOR_SIZE);
      var current := targetBase + received;
      if !io.eraseOk {
        flash := io.noise;
        return false;
      }
      flash := Erased(flash, current / SPI_SECTOR_SIZE);
      writer := Writer(current, []);
      ok := RehashFlash(io.readLimit);
    }

    /** Hashes, then writes. */
    method HashAndWrite(data: seq<byte>, io: Io) returns (ok: bool)
      requires Holds(flash, targetBase, writer, image) && targetBase + |image| + |data| <= FLASH_SIZE
      requires Given(expected1, expected2) ==> hashed == image
      modifies `flash, `writer, `hashed
      ensures ok == io.writeOk
      ensures ok ==> Holds(flash, targetBase, writer, image + data)
      ensures Given(expected1, expected2) ==> hashed == image + data
    {
      hide Holds; hide WholeWords; hide Programmed;
      if expected1.Some? || expected2.Some? {
        hashed := hashed + data;
      }
      HoldsAfterWrite(flash, targetBase, writer, image, data, io.noise);
      var all := writer.extra + data;
      var words := WholeWords(all);
      flash := Programmed(flash, writer.pos, words, io.noise);
      writer := Writer(writer.pos + |words|, all[|words|..]);
      ok := io.writeOk;
    }

    method RestartImage(length: nat)
      modifies `received, `requestOffset, `isValidBinary, `firmwareSize, `hashed, `image
      modifies `headersParsed
      modifies `response
      ensures received == 0 && requestOffset == 0 && !isValidBinary && image == []
      ensures firmwareSize == Some(length) && headersParsed
      ensures response == Response(length, 0, true, 200, 0, 0, false)
    {
      received, requestOffset, isValidBinary := 0, 0, false;
      firmwareSize := Some(length);
      image := [];
      if expected1.Some? || expected2.Some? {
        hashed := [];
      }
      headersParsed, response := true, Response(length, 0, true, 200, 0, 0, false);
    }

    method ContinueImage(length: nat, end: nat, total: nat)
      modifies `firmwareSize, `headersParsed
      modifies `response
      ensures firmwareSize == Some(total) && headersParsed
      ensures response == Response(length, 0, true, 206, end, total, true)
    {
      firmwareSize := Some(total);
      headersParsed, response := true, Response(length, 0, true, 206, end, total, true);
    }

    /** A 200 response: the whole image, from its first byte. */
    method TakeWhole(length: nat, ghost verdict: Verdict)
      requires CoreWith(verdict) && Listening() && connected && !headersParsed
      requires MIN_FIRMWARE_SIZE <= length <= MAX_FIRMWARE_SIZE
      modifies `received, `requestOffset, `isValidBinary, `firmwareSize, `hashed, `image
      modifies `headersParsed
      modifies `response
      ensures CoreWith(Body(Terms(200, 0, length, length), [])) && headersParsed
    {
      hide ImageInv; hide ConnInv; hide AllGood; hide RetryInv; hide SizeInv; hide SlotOk;
      OfferStarts(Terms(200, 0, length, length), connected, header, stream, requestOffset, 0,
                  response,
                  prefix, image, sizeAsked, firmwareSize, isValidBinary, false, verdict);
      RestartImage(length);
      NothingHeld(roms[targetRom], targetBase, flash, writer, Given(expected1, expected2), hashed);
    }

    /** A 206 response: the range that was asked for. */
    method TakeRange(length: nat, end: nat, total: nat, ghost verdict: Verdict)
      requires CoreWith(verdict) && Listening() && connected && !headersParsed
      requires 0 < length && |prefix| + length == end + 1 <= total && MIN_FIRMWARE_SIZE <= total <= MAX_FIRMWARE_SIZE
      requires firmwareSize.Some? ==> firmwareSize.value == total
      modifies `firmwareSize, `headersParsed
      modifies `response
      ensures CoreWith(Body(Terms(206, |prefix|, length, total), [])) && headersParsed
    {
      hide ImageInv; hide ConnInv; hide AllGood; hide RetryInv; hide SizeInv; hide SlotOk;
      OfferStarts(Terms(206, |prefix|, length, total), connected, header, stream, requestOffset, requestOffset,
                  response,
                  prefix, image, sizeAsked, firmwareSize, isValidBinary, isValidBinary, verdict);
      ContinueImage(length, end, total);
    }

    lemma HeaderOpen(verdict: Verdict)
      requires CoreWith(verdict) && Listening() && connected && !headersParsed
      ensures Settled() && verdict.Waiting? && header == stream && |stream| < OTA_MAX_HEADER_SIZE - 1
      ensures requestOffset == |prefix| && sizeAsked == firmwareSize
    {
    }

    /** Still no header: wait for more. */
    method KeepHeader(buffer: seq<byte>)
      requires Core() && Listening() && connected && !headersParsed
      requires |buffer| < OTA_MAX_HEADER_SIZE - 1 && Judge(buffer, |prefix|, sizeAsked).Waiting?
      modifies `header, `stream
      ensures Core() && header == stream == buffer
    {
      hide ImageInv; hide Judge; hide AllGood; hide RetryInv; hide SizeInv;
      header, stream := buffer, buffer;
    }

    /** Reads the header; `terms` is what it offers. */
    method TakeHeader(text: seq<byte>, ghost verdict: Verdict) returns (ok: bool, ghost terms: Terms)
      requires CoreWith(verdict) && Listening() && connected && !headersParsed
      requires requestOffset == |prefix| && sizeAsked == firmwareSize
      modifies `received, `requestOffset, `isValidBinary, `firmwareSize, `hashed, `image, `headersParsed, `response
      ensures ok == Offer(Parse(text), |prefix|, sizeAsked).Some?
      ensures ok ==> Offer(Parse(text), |prefix|, sizeAsked) == Some(terms) && CoreWith(Body(terms, [])) && headersParsed
    {
      hide CoreWith; hide Parse;
      var h := ParseHeaders(text);
      terms := Terms(0, 0, 0, 0);
      if h.BadStatusLine? || (h.status != 200 && h.status != 206) {
        return false, terms;
      }
      if h.contentLength.None? || h.contentLength.value == 0 {
        return false, terms;
      }
      var length := h.contentLength.value;
      if h.status == 200 {
        if length < MIN_FIRMWARE_SIZE || length > MAX_FIRMWARE_SIZE {
          return false, terms;
        }
        TakeWhole(length, verdict);
        return true, Terms(200, 0, length, length);
      }
      if h.contentRange.None? {
        return false, terms;
      }
      var r := h.contentRange.value;
      if r.start != requestOffset || r.end < r.start || r.total == 0 || r.end >= r.total {
        return false, terms;
      }
      if r.total < MIN_FIRMWARE_SIZE || r.total > MAX_FIRMWARE_SIZE || length != r.end - r.start + 1 {
        return false, terms;
      }
      if firmwareSize.Some? && firmwareSize.value != r.total {
        return false, terms;
      }
      TakeRange(length, r.end, r.total, verdict);
      return true, Terms(206, |prefix|, length, r.total);
    }

    /** Appends a packet to the header buffer. Once the header is complete, what lies
        behind it in the packet is returned as the body; `done` when there is none to
        look at, because the header is still incomplete or the update failed. */
    method ReadHeader(data: seq<byte>) returns (done: bool, body: seq<byte>, ghost terms: Terms)
      requires Core() && Listening() && connected && !headersParsed && timeoutTimer != retryTimer
      modifies `received, `requestOffset, `isValidBinary, `firmwareSize, `hashed, `image, `headersParsed, `response
      modifies `header, `stream, `inProgress, `retryPending, `continuePending, timeoutTimer, retryTimer
      ensures var verdict := Judge(old(stream) + data, |prefix|, sizeAsked);
              if verdict.Waiting? then
                done && Core() && Listening() && stream == old(stream) + data && unchanged(timeoutTimer, retryTimer)
              else if done then
                verdict.Rejected? && Valid() && !inProgress
              else
                && CoreWith(Body(terms, [])) && Listening() && headersParsed && unchanged(timeoutTimer, retryTimer)
                && verdict == JudgeBody(Some(terms), body)
    {
      hide CoreWith; hide Judge; hide Fits; hide Offer; hide Parse; hide HeaderEnd;
      ghost var verdict := Judge(stream, |prefix|, sizeAsked);
      HeaderOpen(verdict);
      terms, body := Terms(0, 0, 0, 0), [];
      var previous := |header|;
      var copyLen := if previous + |data| > OTA_MAX_HEADER_SIZE - 1 then OTA_MAX_HEADER_SIZE - 1 - previous else |data|;
      var buffer := header + data[..copyLen];
      HeaderStep(stream, data, |prefix|, sizeAsked, buffer);
      var marker := HeaderEnd(buffer, 0);
      if marker.None? {
        if |buffer| >= OTA_MAX_HEADER_SIZE - 1 {
          FailUpdate();
        } else {
          KeepHeader(buffer);
        }
        return true, body, terms;
      }
      var ok;
      ok, terms := TakeHeader(buffer[..marker.value], verdict);
      if !ok {
        FailUpdate();
        return true, body, terms;
      }
      return false, data[marker.value - previous..], terms;
    }

    /** `data` may be appended, as far as everything but the flash is concerned. */
    ghost predicate Feeding(terms: Terms, seen: seq<byte>, data: seq<byte>, validBinary: bool)
      reads `inProgress, `retryPending, `continuePending, `targetRom, `received, `image, `retryCount, `prefix, `attempts
      reads `stagings, `connected, `headersParsed, `header, `stream, `response, `requestOffset, `sizeAsked, `firmwareSize
    {
      && Settled() && inProgress && !retryPending && !continuePending && headersParsed && data != []
      && targetRom < 2 && received == |image| && received + |data| <= MAX_FIRMWARE_SIZE
      && SizeInv(firmwareSize, received + |data|)
      && retryCount <= OTA_MAX_RETRIES && RetryInv(retryCount, false, |prefix|, attempts)
      && ConnInv(Body(terms, seen), connected, headersParsed, header, stream, response, requestOffset, prefix, image,
                 sizeAsked, firmwareSize, validBinary)
    }

    lemma BodyFacts(terms: Terms, seen: seq<byte>, data: seq<byte>)
      requires CoreWith(Body(terms, seen)) && Listening() && headersParsed && data != []
      ensures Settled() && SlotsOk(roms) && targetRom < 2 && received == |image|
      ensures ImageInv(isValidBinary, roms[targetRom], targetBase, received, image, flash, writer,
                       Given(expected1, expected2), hashed)
      ensures isValidBinary ==>
                && targetBase == roms[targetRom] && Holds(flash, targetBase, writer, image)
                && (Given(expected1, expected2) ==> hashed == image)
      ensures response.got <= response.length
      ensures |data| > response.length - response.got ==> JudgeBody(Some(terms), seen + data).Rejected?
      ensures |data| <= response.length - response.got ==>
                && received + |data| <= MAX_FIRMWARE_SIZE && Feeding(terms, seen, data, isValidBinary)
                && (JudgeBody(Some(terms), seen + data).Rejected? <==> !isValidBinary && received == 0 && !Magic(data[0]))
    {
      hide Holds; hide ConnInv; hide SizeInv; hide JudgeBody; hide RetryInv; hide AllGood; hide ImageInv;
      ImageFacts(isValidBinary, roms[targetRom], targetBase, received, image, flash, writer,
                 Given(expected1, expected2), hashed);
      BodyStep(terms, seen, data, headersParsed, connected, header, stream, response, requestOffset, prefix, image,
               sizeAsked, firmwareSize, isValidBinary);
    }

    method CountBody(data: seq<byte>, ghost terms: Terms, ghost seen: seq<byte>, ghost packets: seq<byte>, ghost valid: bool)
      requires Feeding(terms, seen, data, valid) && isValidBinary && targetBase == roms[targetRom]
      requires Holds(flash, targetBase, writer, image + data)
      requires Given(expected1, expected2) ==> hashed == image + data
      requires JudgeBody(Some(terms), seen + data).Body?
      requires Judge(packets, |prefix|, sizeAsked) == JudgeBody(Some(terms), seen + data)
      modifies `received, `response, `image, `stream
      ensures Core() && stream == packets && received == old(received) + |data| && image == old(image) + data
    {
      hide ConnInv; hide Judge; hide JudgeBody; hide Holds; hide SizeInv; hide RetryInv; hide AllGood;
      BodyGrows(Body(terms, seen), terms, data, headersParsed, connected, header, stream, packets, response, requestOffset,
                prefix, image, sizeAsked, firmwareSize, valid);
      received, response := received + |data|, response.(got := response.got + |data|);
      image, stream := image + data, packets;
    }

    /** Accepts the bytes of the body that a packet brought: `seen` is the body before,
        and `packets` everything received on this connection with this packet. */
    method AcceptBody(data: seq<byte>, io: Io, ghost terms: Terms, ghost seen: seq<byte>, ghost packets: seq<byte>)
      requires CoreWith(Body(terms, seen)) && Listening() && headersParsed && data != []
      requires timeoutTimer != retryTimer && timeoutTimer.armed && !retryTimer.armed
      requires Judge(packets, |prefix|, sizeAsked) == JudgeBody(Some(terms), seen + data)
      modifies `received, `isValidBinary, `targetBase, `flash, `writer, `hashed, `image, `response, `stream
      modifies `inProgress, `retryPending, `continuePending, timeoutTimer, retryTimer
      ensures Valid()
      ensures Judge(packets, |prefix|, sizeAsked).Rejected? ==> !inProgress
      ensures io.AllOk() && !Judge(packets, |prefix|, sizeAsked).Rejected? ==> inProgress
      ensures inProgress ==> Listening() && stream == packets
    {
      hide CoreWith; hide Judge; hide JudgeBody; hide ImageInv; hide Holds; hide Settled; hide Magic; hide Feeding;
      BodyFacts(terms, seen, data);
      if |data| > response.length - response.got {
        FailUpdate();
        return;
      }
      ghost var valid := isValidBinary;
      var ok := true;
      if !isValidBinary {
        ok := BeginImage(data[0], io);
      }
      if ok {
        ok := HashAndWrite(data, io);
      }
      if !ok {
        FailUpdate();
        return;
      }
      CountBody(data, terms, seen, packets, valid);
    }

    lemma BodySoFar()
      requires Core() && Listening() && connected && headersParsed
      ensures var verdict := Judge(stream, |prefix|, sizeAsked);
              verdict.Body? && CoreWith(Body(verdict.terms, verdict.data))
    {
    }

    /** A packet from the server. */
    method TcpRecv(data: seq<byte>, io: Io)
      requires Valid()
      requires Listening() ==> connected
      modifies `received, `requestOffset, `isValidBinary, `firmwareSize, `hashed, `image, `headersParsed, `response
      modifies `header, `stream, `targetBase, `flash, `writer
      modifies `inProgress, `retryPending, `continuePending, timeoutTimer, retryTimer
      ensures Valid()
      ensures !old(Listening()) ==> unchanged(this, timeoutTimer, retryTimer)
      ensures old(Listening()) ==>
                var verdict := Judge(old(stream) + data, |prefix|, sizeAsked);
                && (verdict.Rejected? ==> !inProgress)
                && (io.AllOk() && !verdict.Rejected? ==> inProgress)
                && (inProgress ==> Listening() && stream == old(stream) + data)
    {
      hide CoreWith; hide Judge; hide JudgeBody; hide Settled;
      if !inProgress || retryPending {
        return;
      }
      timeoutTimer.Disarm();
      timeoutTimer.Arm();
      if !headersParsed {
        ghost var packets := stream + data;
        var done, body, terms := ReadHeader(data);
        if !done {
          assert [] + body == body;
          ContinueBody(body, io, terms, [], packets);
        }
      } else {
        BodySoFar();
        ghost var verdict := Judge(stream, |prefix|, sizeAsked);
        JudgeExtends(stream, data, |prefix|, sizeAsked);
        ContinueBody(data, io, verdict.terms, verdict.data, stream + data);
      }
    }

    /** An empty rest of a packet changes nothing. */
    method ContinueBody(data: seq<byte>, io: Io, ghost terms: Terms, ghost seen: seq<byte>, ghost packets: seq<byte>)
      requires CoreWith(Body(terms, seen)) && Listening() && headersParsed
      requires timeoutTimer != retryTimer && timeoutTimer.armed && !retryTimer.armed
      requires Judge(packets, |prefix|, sizeAsked) == JudgeBody(Some(terms), seen + data)
      modifies `received, `isValidBinary, `targetBase, `flash, `writer, `hashed, `image, `response, `stream
      modifies `inProgress, `retryPending, `continuePending, timeoutTimer, retryTimer
      ensures Valid()
      ensures Judge(packets, |prefix|, sizeAsked).Rejected? ==> !inProgress
      ensures io.AllOk() && !Judge(packets, |prefix|, sizeAsked).Rejected? ==> inProgress
      ensures inProgress ==> Listening() && stream == packets
    {
      hide CoreWith; hide Judge; hide JudgeBody; hide Settled;
      if data == [] {
        assert seen + data == seen;
        KeepBody(terms, seen, packets);
      } else {
        AcceptBody(data, io, terms, seen, packets);
      }
    }

    ghost method KeepBody(terms: Terms, seen: seq<byte>, packets: seq<byte>)
      requires CoreWith(Body(terms, seen)) && Listening() && headersParsed
      requires Judge(packets, |prefix|, sizeAsked) == JudgeBody(Some(terms), seen)
      modifies `stream
      ensures Core() && stream == packets && Judge(packets, |prefix|, sizeAsked).Body?
    {
      hide ImageInv; hide Judge; hide AllGood; hide RetryInv; hide SizeInv;
      stream := packets;
    }

    method CheckDigest() returns (matched: bool)
      requires targetRom < 2
      ensures matched == DigestOk(targetRom, expected1, expected2, sha256(hashed))
    {
      if expected1.None? && expected2.None? {
        return true;
      }
      var digest := sha256(hashed);
      matched := false;
      if targetRom == 0 && expected1.Some? {
        matched := digest == expected1.value;
      } else if targetRom == 1 && expected2.Some? {
        matched := digest == expected2.value;
      }
    }

    /** What rBoot is about to start is what was downloaded. */
    ghost method RecordStaging()
      requires Settled() && targetRom < 2 && targetBase + received <= FLASH_SIZE
      requires flash[targetBase..targetBase + received] == image && MIN_FIRMWARE_SIZE <= |image| <= MAX_FIRMWARE_SIZE
      requires firmwareSize == Some(|image|) && DigestOk(targetRom, expected1, expected2, sha256(image))
      modifies `stagings
      ensures Settled()
      ensures stagings == old(stagings) + [Staging(targetRom, flash[targetBase..targetBase + received],
                                                   firmwareSize.value, expected1, expected2)]
    {
      stagings := stagings + [Staging(targetRom, flash[targetBase..targetBase + received],
                                      firmwareSize.value, expected1, expected2)];
    }

    /** The image is complete: finish the flash, check the digest, stage the slot. */
    method Complete(io: Io)
      requires Core() && timeoutTimer != retryTimer && Listening() && isValidBinary && MIN_FIRMWARE_SIZE <= received
      requires firmwareSize == Some(received)
      modifies `flash, `stagings, `inProgress, `isValidBinary, `retryPending, `continuePending, timeoutTimer, retryTimer
      ensures Valid() && !inProgress
      ensures stagings == old(stagings) +
                          if io.endOk && DigestOk(targetRom, expected1, expected2, sha256(image))
                          then [Staging(targetRom, image, firmwareSize.value, expected1, expected2)] else []
    {
      hide Core; hide AllGood; hide SlotsOk; hide GoodStaging;
      ImageReady();
      FinishWrite(io.noise);
      if !io.endOk {
        FailUpdate();
        return;
      }
      var matched := CheckDigest();
      if !matched {
        FailUpdate();
        return;
      }
      RecordStaging();
      CleanupTimers();
      if io.stageOk {
        inProgress := false;
        NotInProgress();
      } else {
        FailUpdate();
      }
    }

    /** The writer's held bytes go to flash: now the slot holds the whole image. */
    method FinishWrite(noise: Image)
      requires Holds(flash, targetBase, writer, image) && received == |image|
      modifies `flash
      ensures targetBase + received <= FLASH_SIZE && flash[targetBase..targetBase + received] == image
    {
      hide Programmed;
      HoldsAfterEnd(flash, targetBase, writer, image, noise);
      flash := Programmed(flash, writer.pos, writer.extra, noise);
    }

    lemma ImageReady()
      requires Core() && Listening() && isValidBinary
      ensures Settled() && targetRom < 2 && received == |image| <= MAX_FIRMWARE_SIZE && !continuePending
      ensures Holds(flash, targetBase, writer, image) && (Given(expected1, expected2) ==> hashed == image)
    {
      hide ConnInv; hide Judge; hide SizeInv; hide RetryInv; hide AllGood; hide Holds; hide ImageInv;
      ImageFacts(isValidBinary, roms[targetRom], targetBase, received, image, flash, writer,
                 Given(expected1, expected2), hashed);
    }

    lemma NotInProgress()
      requires Settled() && !inProgress && !retryPending && !continuePending
      ensures Core()
    {
      hide ConnInv; hide Judge; hide SizeInv; hide RetryInv; hide AllGood; hide ImageInv;
    }

    lemma ConnectionFacts()
      requires Core() && Listening()
      ensures var verdict := Judge(stream, |prefix|, sizeAsked);
              && response.known == headersParsed == verdict.Body? && received == |image|
              && (headersParsed ==>
                    && response.got <= response.length && firmwareSize.Some? && firmwareSize.value == verdict.terms.total
                    && received == verdict.terms.start + |verdict.data|
                    && (|verdict.data| == verdict.terms.length <==> response.got == response.length))
              && (headersParsed && response.got == response.length ==>
                    if firmwareSize.value == received then isValidBinary && MIN_FIRMWARE_SIZE <= received
                    else && response.status == 206 && response.rangeValid && response.rangeEnd + 1 == received
                         && |prefix| < received < response.rangeTotal && received < firmwareSize.value)
    {
      hide ConnInv; hide Judge; hide ImageInv; hide SizeInv; hide RetryInv; hide AllGood;
      EndOfResponse(Judge(stream, |prefix|, sizeAsked), connected, headersParsed, header, stream, response, requestOffset,
                    prefix, image, sizeAsked, firmwareSize, isValidBinary);
    }

    /** Whether the response was received to its end. */
    ghost predicate ResponseComplete(verdict: Verdict) {
      verdict.Body? && |verdict.data| == verdict.terms.length
    }

    /** Whether this response brought the last byte of the image. */
    ghost predicate ImageComplete(verdict: Verdict) {
      ResponseComplete(verdict) && verdict.terms.start + verdict.terms.length == verdict.terms.total
    }

    /** The connection is closed: the update completes, asks for the next range, or
        spends a retry. */
    method TcpDiscon(io: Io)
      requires Valid()
      modifies `flash, `stagings, `inProgress, `isValidBinary, `retryPending, `continuePending, timeoutTimer, retryTimer
      modifies `retryCount, `received, `image
      ensures Valid()
      ensures !old(Listening()) ==> unchanged(this, timeoutTimer, retryTimer)
      ensures old(Listening()) ==>
                var verdict := Judge(stream, |prefix|, sizeAsked);
                if ImageComplete(verdict) then
                  && !inProgress
                  && stagings == old(stagings) +
                                 if io.endOk && DigestOk(targetRom, expected1, expected2, sha256(old(image)))
                                 then [Staging(targetRom, old(image), verdict.terms.total, expected1, expected2)] else []
                else
                  && stagings == old(stagings)
                  && if ResponseComplete(verdict) then
                       && inProgress && retryPending && continuePending
                       && unchanged(`retryCount, `received, `image, `isValidBinary)
                     else
                       Retried()
    {
      hide Core; hide Judge; hide DigestOk;
      if !inProgress || retryPending {
        return;
      }
      ConnectionFacts();
      timeoutTimer.Disarm();
      if isValidBinary && response.known && response.got == response.length && firmwareSize.Some? &&
         received == firmwareSize.value {
        Complete(io);
      } else if headersParsed && response.known && response.got < response.length {
        TriggerReconnect();
      } else if !headersParsed || !response.known {
        TriggerReconnect();
      } else if response.got == response.length && response.status == 206 && response.rangeValid &&
                response.rangeEnd + 1 < response.rangeTotal && received == response.rangeEnd + 1 &&
                received < firmwareSize.value {
        ScheduleRangeContinue();
      } else {
        // OTA_RETRY_FAILURE_OTHER: a complete response always fits one of the cases above.
        assert false;
      }
    }

    method ResetUpdate(target: nat, first: Option<seq<byte>>, second: Option<seq<byte>>)
      modifies `inProgress, `targetRom, `headersParsed, `isValidBinary, `firmwareSize, `response, `received, `requestOffset
      modifies `retryCount, `retryPending, `continuePending, `header, `expected1, `expected2, `hashed, `connected
      modifies `image, `prefix, `sizeAsked, `stream, `attempts, timeoutTimer, retryTimer
      ensures inProgress && !retryPending && !continuePending && retryCount == 0 && !retryTimer.armed
      ensures targetRom == target && expected1 == first && expected2 == second
      ensures !headersParsed && !isValidBinary && firmwareSize.None? && response == NO_RESPONSE
      ensures received == 0 && !connected && header == [] && image == [] && prefix == [] && stream == []
      ensures sizeAsked == firmwareSize && attempts == 1
    {
      CleanupTimers();
      ResetFlags();
      ResetImage();
      ForgetResponse();
      SetTarget(target, first, second);
      CountAttempt();
    }

    method SetTarget(target: nat, first: Option<seq<byte>>, second: Option<seq<byte>>)
      modifies `targetRom, `expected1, `expected2, `hashed, `attempts
      ensures targetRom == target && expected1 == first && expected2 == second && attempts == 0
    {
      targetRom, expected1, expected2, hashed, attempts := target, first, second, [], 0;
    }

    method ResetFlags()
      modifies `inProgress, `retryPending, `continuePending, `retryCount, `isValidBinary
      ensures inProgress && !retryPending && !continuePending && retryCount == 0 && !isValidBinary
    {
      inProgress, retryPending, continuePending, retryCount, isValidBinary := true, false, false, 0, false;
    }

    method ResetImage()
      modifies `firmwareSize, `received, `requestOffset, `image
      ensures firmwareSize.None? && received == 0 && image == []
    {
      firmwareSize, received, requestOffset, image := None, 0, 0, [];
    }

    /** Begins an update into the slot that is not running. `digests` is none when a
        digest was malformed. */
    method Start(currentRom: nat, digests: Option<(Option<seq<byte>>, Option<seq<byte>>)>, urlOk: bool, dns: DnsResult)
      requires Valid()
      modifies this, timeoutTimer, retryTimer
      ensures Valid()
      ensures unchanged(`stagings, `flash, `writer)
      ensures (digests.None? || !urlOk) ==> !inProgress
      ensures digests.Some? && urlOk ==>
                && targetRom == (if currentRom == 0 then 1 else 0) && (expected1, expected2) == digests.value
                && attempts == 1 && image == [] && inProgress && prefix == [] && stream == [] && !connected
                && firmwareSize.None?
                && (Listening() <==> dns == DnsOk(true) || dns == DnsInProgress)
                && retryCount == if Listening() then 0 else 1
    {
      hide Core; hide CoreWith; hide RetryInv; hide AllGood; hide SlotsOk;
      StillSettled();
      var target := if currentRom == 0 then 1 else 0;
      ResetUpdate(target, if digests.Some? then digests.value.0 else None, if digests.Some? then digests.value.1 else None);
      if digests.None? || !urlOk {
        FailUpdate();
        return;
      }
      FirstAttempt();
      Fresh();
      LookUp(dns);
    }

    lemma StillSettled()
      requires Valid()
      ensures SlotsOk(roms) && AllGood(stagings, sha256)
    {
    }

    lemma Fresh()
      requires Settled() && inProgress && !retryPending && !continuePending && retryCount == 0
      requires targetRom < 2 && !headersParsed && !isValidBinary && firmwareSize.None? && response == NO_RESPONSE
      requires received == 0 && !connected && header == [] && image == [] && prefix == [] && stream == []
      requires sizeAsked == firmwareSize && RetryInv(0, false, 0, attempts)
      ensures Core()
    {
      hide ImageInv; hide ConnInv; hide Judge; hide RetryInv; hide AllGood; hide SlotOk;
      FreshConnection(requestOffset, image, firmwareSize, isValidBinary);
      NothingHeld(roms[targetRom], targetBase, flash, writer, Given(expected1, expected2), hashed);
    }

    lemma ImageOfBody()
      requires Core() && Listening()
      ensures var verdict := Judge(stream, |prefix|, sizeAsked);
              && headersParsed == verdict.Body?
              && (verdict.Body? ==> verdict.terms.start <= |prefix| && image == prefix[..verdict.terms.start] + verdict.data)
              && (!verdict.Body? ==> image == prefix)
              && firmwareSize == if verdict.Body? then Some(verdict.terms.total) else sizeAsked
    {
      hide Judge; hide ImageInv; hide SizeInv; hide RetryInv; hide AllGood;
    }

    /** Between any two events of an update: while data is accepted, what was hashed is
        what the slot holds, up to the bytes of the writer's last word; while it is not,
        the accepted bytes end with a sector, so the next erase cannot touch them. */
    lemma HashAgreesWithFlash()
      requires Valid() && inProgress
      ensures var slot := roms[targetRom];
              if Live(isValidBinary, retryPending, continuePending) then
                && slot <= writer.pos <= slot + received == writer.pos + |writer.extra| <= FLASH_SIZE && |writer.extra| < 4
                && (Given(expected1, expected2) ==> hashed == flash[slot..writer.pos] + writer.extra)
              else
                received % SPI_SECTOR_SIZE == 0 && flash[slot..slot + received] == image
    {
      hide ConnInv; hide Judge; hide SizeInv; hide RetryInv; hide AllGood;
    }

    /** However a response is cut into packets, what is accepted is the body behind its
        first blank line, and whether it is accepted depends on its bytes alone. */
    method Deliver(packets: seq<seq<byte>>, io: Io)
      requires Valid() && Listening() && connected && stream == [] && io.AllOk()
      modifies this, timeoutTimer, retryTimer
      ensures Valid() && unchanged(`prefix, `sizeAsked)
      ensures var verdict := Judge(Concat(packets), |prefix|, sizeAsked);
              && (inProgress <==> !verdict.Rejected?)
              && (verdict.Waiting? ==> image == prefix)
              && (verdict.Body? ==> verdict.terms.start <= |prefix| && image == prefix[..verdict.terms.start] + verdict.data)
              && (verdict.Body? ==> firmwareSize == Some(verdict.terms.total))
      ensures inProgress ==> Listening() && connected && stream == Concat(packets)
      ensures unchanged(`stagings, `targetRom, `expected1, `expected2, `retryCount)
    {
      hide Core; hide Judge;
      NothingYet(|prefix|, sizeAsked);
      for i := 0 to |packets|
        invariant Valid() && unchanged(`prefix, `sizeAsked)
        invariant unchanged(`stagings, `targetRom, `expected1, `expected2, `retryCount)
        invariant inProgress ==> Listening() && connected && stream == Concat(packets[..i])
        invariant inProgress <==> !Judge(Concat(packets[..i]), |prefix|, sizeAsked).Rejected?
      {
        assert packets[..i + 1][..i] == packets[..i];
        if !inProgress {
          RejectionStands(Concat(packets[..i]), packets[i], |prefix|, sizeAsked);
        }
        TcpRecv(packets[i], io);
      }
      assert packets[..|packets|] == packets;
      if inProgress {
        ImageOfBody();
      }
    }

    /** One event. Data comes only on an established connection, and a connection is
        established once. */
    method Handle(e: Event)
      requires Valid()
      modifies this, timeoutTimer, retryTimer
      ensures Valid() && old(stagings) <= stagings
    {
      hide Core;
      match e
      case StartRequest(currentRom, digests, urlOk, dns) => Start(currentRom, digests, urlOk, dns);
      case DnsAnswer(resolved, connectOk) => DnsFound(resolved, connectOk);
      case Connected(sendOk) =>
        if !connected {
          TcpConnect(sendOk);
        }
      case Received(data, io) =>
        if connected {
          TcpRecv(data, io);
        }
      case Disconnected(io) => TcpDiscon(io);
      case ConnectionError => TcpRecon();
      case TimeoutExpired => Timeout();
      case RetryDelayOver(dns) => RetryTimer(dns);
    }

    /** Over every run and against any server: all slots ever staged are good, and the
        number of connection attempts of an update is bounded. */
    method Run(events: seq<Event>)
      requires Valid()
      modifies this, timeoutTimer, retryTimer
      ensures Valid() && attempts <= MAX_ATTEMPTS && old(stagings) <= stagings
      ensures forall i | 0 <= i < |stagings| :: GoodStaging(stagings[i], sha256)
    {
      hide CoreWith; hide GoodStaging;
      for i := 0 to |events|
        invariant Valid() && old(stagings) <= stagings
      {
        Handle(events[i]);
      }
      AtRest();
    }

    /** The update has nothing that is not of `file`, and the response it listens to is a
        part of it. */
    ghost predicate OfFile(file: seq<byte>)
      reads this
    {
      inProgress ==>
        && image <= file && prefix <= file
        && (!retryPending ==> Serves(Judge(stream, |prefix|, sizeAsked), file))
    }

    /** One event, with a server that serves `file`. */
    method HandleServed(e: Event, file: seq<byte>)
      requires Valid() && OfFile(file)
      requires e.Received? && Listening() && connected ==> Serves(Judge(stream + e.data, |prefix|, sizeAsked), file)
      modifies this, timeoutTimer, retryTimer
      ensures Valid() && OfFile(file)
      ensures stagings == old(stagings) || (|stagings| == |old(stagings)| + 1 && old(stagings) < stagings
                                            && stagings[|old(stagings)|].contents == file)
      ensures Listening() && connected && !e.Received? ==> stream == if old(Listening() && connected) then old(stream) else []
      ensures Listening() && connected && e.Received? ==> old(Listening() && connected) && stream == old(stream) + e.data
    {
      hide Core; hide Judge; hide Serves;
      NothingServed(|prefix|, sizeAsked, file);
      match e
      case StartRequest(currentRom, digests, urlOk, dns) =>
        Start(currentRom, digests, urlOk, dns);
        NothingServed(|prefix|, sizeAsked, file);
      case DnsAnswer(resolved, connectOk) => DnsFound(resolved, connectOk);
      case Connected(sendOk) =>
        if !connected {
          if Listening() {
            NotConnected();
          }
          TcpConnect(sendOk);
        }
      case Received(data, io) =>
        if connected {
          TcpRecv(data, io);
          if inProgress && Listening() {
            ImageOfBody();
            ServedImage(Judge(stream, |prefix|, sizeAsked), prefix, image, file);
          }
        }
      case Disconnected(io) =>
        if Listening() {
          ImageOfBody();
          ServedWhole(Judge(stream, |prefix|, sizeAsked), prefix, image, file);
        }
        TcpDiscon(io);
      case ConnectionError => TcpRecon();
      case TimeoutExpired => Timeout();
      case RetryDelayOver(dns) =>
        RetryTimer(dns);
        NothingServed(|prefix|, sizeAsked, file);
    }

    lemma NotConnected()
      requires Valid() && Listening() && !connected
      ensures stream == []
    {
      hide Judge; hide ImageInv; hide SizeInv; hide RetryInv; hide AllGood;
    }

    /** Over every run against a server whose responses are all parts of one file, however
        they are cut into packets and whatever the flash calls do: what is staged is that
        file. `responses`: the stream of each connection; an event brings as many bytes of
        it as its data has. */
    method RunServed(events: seq<Event>, file: seq<byte>, responses: nat -> seq<byte>)
      requires Valid() && !inProgress && Honest(responses, file)
      modifies this, timeoutTimer, retryTimer
      ensures Valid() && old(stagings) <= stagings
      ensures forall i | |old(stagings)| <= i < |stagings| :: stagings[i].contents == file
    {
      hide Core; hide Judge; hide Serves; hide Valid; hide OfFile; hide Honest;
      NoUpdate(file);
      var k: nat, pos: nat := 0, 0;
      for i := 0 to |events|
        invariant Valid() && OfFile(file) && old(stagings) <= stagings
        invariant forall j | |old(stagings)| <= j < |stagings| :: stagings[j].contents == file
        invariant pos <= |responses(k)|
        invariant Listening() && connected ==> stream == responses(k)[..pos]
      {
        var e := events[i];
        var listening := Listening() && connected;
        if e.Received? {
          var n := if |responses(k)| - pos < |e.data| then |responses(k)| - pos else |e.data|;
          var data := responses(k)[pos..pos + n];
          assert responses(k)[..pos] + data == responses(k)[..pos + n];
          ServedSoFar(responses, file, k, pos + n, |prefix|, sizeAsked);
          HandleServed(Received(data, e.io), file);
          pos := pos + n;
        } else {
          HandleServed(e, file);
          if !listening {
            k, pos := i, 0;
          }
        }
      }
    }

    lemma NoUpdate(file: seq<byte>)
      requires !inProgress
      ensures OfFile(file) && !Listening()
    {
    }

    lemma AtRest()
      requires Valid()
      ensures attempts <= MAX_ATTEMPTS && AllGood(stagings, sha256)
    {
    }

    /** When the network stays silent, the timers alone end every update. */
    method Silence()
      requires Valid()
      modifies this, timeoutTimer, retryTimer
      ensures Valid() && !inProgress && stagings == old(stagings)
    {
      hide Judge; hide ImageInv; hide ConnInv; hide SizeInv; hide RetryInv; hide AllGood; hide SlotOk;
      while inProgress
        invariant Valid() && stagings == old(stagings)
        decreases inProgress, OTA_MAX_RETRIES - retryCount, retryPending
      {
        if retryPending {
          RetryTimer(DnsInProgress);
        } else {
          Timeout();
        }
      }
    }
  }
}
