/**
 The TS 23.041 page container carried by a Write-Replace-Warning-Request, the
 warning area's wire form, and the way from a text to the octets sent and back.
 */
module Container {
  import opened Wrappers
  import opened Bits
  import opened Encoding
  import opened Numerals
  import Elements
  import Messages
  import Pdu
  import Per

  type uint16 = Elements.uint16
  type uint32 = Elements.uint32

  const PLMN_WIDE := 1
  const TRACKING_AREA_WIDE := 2
  const CELL_WIDE := 3

  datatype Target = Target(scope: octet, cells: seq<string>, trackingAreas: seq<string>)

  datatype Message = Message(
    infoIndex: nat, messageId: uint16, serial: uint16, dcs: octet, alphabet: Alphabet, target: Target, pages: seq<Page>)

  datatype CbsError = BadPageCount | BadPage | BadPlmn | BadScope | BadTarget | NotEncoded(error: Per.Error)

  // Used length of a page

  function UsedGsm(data: seq<octet>, n: nat): (used: nat)
    requires n <= |data|
    ensures used <= n
  {
    if n == 0 || data[n - 1] != PADDING then n else UsedGsm(data, n - 1)
  }

  function UsedUcs2(data: seq<octet>, n: nat): (used: nat)
    requires n <= |data| && n % 2 == 0
    ensures used <= n && used % 2 == 0
  {
    if n == 0 || data[n - 2] != 0 || data[n - 1] != PADDING then n else UsedUcs2(data, n - 2)
  }

  function Used(data: seq<octet>, alphabet: Alphabet): (used: nat)
    requires |data| == PAGE_OCTETS
    ensures used <= PAGE_OCTETS
  {
    if alphabet.Ucs2? then UsedUcs2(data, PAGE_OCTETS) else UsedGsm(data, PAGE_OCTETS)
  }

  method UsedOctets(page: Page, alphabet: Alphabet) returns (used: nat)
    requires |page.data| == PAGE_OCTETS
    ensures used == Used(page.data, alphabet)
  {
    if alphabet == Ucs2 {
      var i := PAGE_OCTETS - 2;
      while i >= 0
        invariant -2 <= i <= PAGE_OCTETS - 2 && i % 2 == 0
        invariant UsedUcs2(page.data, PAGE_OCTETS) == UsedUcs2(page.data, i + 2)
      {
        if page.data[i] != 0 || page.data[i + 1] != PADDING {
          return i + 2;
        }
        i := i - 2;
      }
      return 0;
    }
    var i := PAGE_OCTETS - 1;
    while i >= 0
      invariant -1 <= i <= PAGE_OCTETS - 1
      invariant UsedGsm(page.data, PAGE_OCTETS) == UsedGsm(page.data, i + 1)
    {
      if page.data[i] != PADDING {
        return i + 1;
      }
      i := i - 1;
    }
    return 0;
  }

  /** A page rebuilt from its used part with the alphabet's padding. */
  function Refill(part: seq<octet>, alphabet: Alphabet): seq<octet>
    requires |part| <= PAGE_OCTETS && (alphabet.Ucs2? ==> |part| % 2 == 0)
  {
    part + if alphabet.Ucs2? then UnitPadding((PAGE_OCTETS - |part|) / 2) else Padding(PAGE_OCTETS - |part|)
  }

  /** The lengths a page may be cut to. */
  predicate Cuttable(n: nat, alphabet: Alphabet) {
    n <= PAGE_OCTETS && (alphabet.Ucs2? ==> n % 2 == 0)
  }

  lemma {:induction false} UsedGsmPads(data: seq<octet>, n: nat)
    requires n <= |data| && forall j | n <= j < |data| :: data[j] == PADDING
    ensures var used := UsedGsm(data, n);
      && (forall j | used <= j < |data| :: data[j] == PADDING)
      && (used > 0 ==> data[used - 1] != PADDING)
  {
    if n == 0 || data[n - 1] != PADDING {
    } else {
      UsedGsmPads(data, n - 1);
    }
  }

  lemma {:induction false} UsedUcs2Pads(data: seq<octet>, n: nat)
    requires n <= |data| && n % 2 == 0
    requires forall j | n <= j < |data| :: data[j] == if j % 2 == 0 then 0 else PADDING
    ensures var used := UsedUcs2(data, n);
      && (forall j | used <= j < |data| :: data[j] == if j % 2 == 0 then 0 else PADDING)
      && (used > 0 ==> data[used - 2] != 0 || data[used - 1] != PADDING)
  {
    if n == 0 || data[n - 2] != 0 || data[n - 1] != PADDING {
    } else {
      UsedUcs2Pads(data, n - 2);
    }
  }

  lemma GsmCut(data: seq<octet>, used: nat, n: nat)
    requires |data| == PAGE_OCTETS && used <= PAGE_OCTETS && n <= PAGE_OCTETS
    requires forall j | used <= j < |data| :: data[j] == PADDING
    requires used > 0 ==> data[used - 1] != PADDING
    ensures data[..n] + Padding(PAGE_OCTETS - n) == data <==> n >= used
  {
    var filled := data[..n] + Padding(PAGE_OCTETS - n);
    if n < used {
      assert filled[used - 1] == PADDING;
    }
  }

  lemma Ucs2Cut(data: seq<octet>, used: nat, n: nat)
    requires |data| == PAGE_OCTETS && used <= PAGE_OCTETS && n <= PAGE_OCTETS && used % 2 == 0 && n % 2 == 0
    requires forall j | used <= j < |data| :: data[j] == if j % 2 == 0 then 0 else PADDING
    requires used > 0 ==> data[used - 2] != 0 || data[used - 1] != PADDING
    ensures data[..n] + UnitPadding((PAGE_OCTETS - n) / 2) == data <==> n >= used
  {
    var filled := data[..n] + UnitPadding((PAGE_OCTETS - n) / 2);
    if n < used {
      assert filled[used - 2] == 0 && filled[used - 1] == PADDING;
    }
  }

  /** Cutting a page to its used length loses nothing, and no shorter cut does that. */
  lemma UsedIsShortest(data: seq<octet>, alphabet: Alphabet)
    requires |data| == PAGE_OCTETS
    ensures Cuttable(Used(data, alphabet), alphabet)
    ensures forall n: nat | Cuttable(n, alphabet) ::
      Refill(data[..n], alphabet) == data <==> n >= Used(data, alphabet)
  {
    hide UsedUcs2, UsedGsm;
    var used := Used(data, alphabet);
    if alphabet.Ucs2? {
      UsedUcs2Pads(data, PAGE_OCTETS);
    } else {
      UsedGsmPads(data, PAGE_OCTETS);
    }
    hide Used;
    forall n: nat | Cuttable(n, alphabet)
      ensures Refill(data[..n], alphabet) == data <==> n >= used
    {
      if alphabet.Ucs2? {
        Ucs2Cut(data, used, n);
      } else {
        GsmCut(data, used, n);
      }
    }
  }

  // The page container

  function UsedOf(pages: seq<Page>, i: nat, alphabet: Alphabet): (used: octet)
    requires i < |pages| && |pages[i].data| == PAGE_OCTETS
    ensures used <= PAGE_OCTETS
  {
    if i == |pages| - 1 then Used(pages[i].data, alphabet) else PAGE_OCTETS
  }

  /** The first n pages of a container: 82 octets and a used length each. */
  function PageBlocks(pages: seq<Page>, n: nat, alphabet: Alphabet): (blocks: seq<octet>)
    requires n <= |pages| && forall p | p in pages :: |p.data| == PAGE_OCTETS
    ensures |blocks| == 83 * n
  {
    if n == 0 then []
    else
      assert pages[n - 1] in pages;
      PageBlocks(pages, n - 1, alphabet) + pages[n - 1].data + [UsedOf(pages, n - 1, alphabet)]
  }

  function Contents(pages: seq<Page>, alphabet: Alphabet): (contents: seq<octet>)
    requires |pages| <= MAX_PAGES && forall p | p in pages :: |p.data| == PAGE_OCTETS
    ensures |contents| == 1 + 83 * |pages|
  {
    [|pages|] + PageBlocks(pages, |pages|, alphabet)
  }

  /** What the sender checks of every page. */
  predicate PagesOk(pages: seq<Page>) {
    forall i | 0 <= i < |pages| ::
      |pages[i].data| == PAGE_OCTETS && pages[i].number == i + 1 && pages[i].total == |pages|
  }

  predicate ContainerShape(contents: seq<octet>, count: nat) {
    count <= MAX_PAGES && |contents| == 1 + 83 * count && contents[0] == count
  }

  /** The octet behind page i. */
  function UsedOctet(contents: seq<octet>, count: nat, i: nat): octet
    requires i < count && ContainerShape(contents, count)
  {
    contents[83 * (i + 1)]
  }

  function PagePart(contents: seq<octet>, count: nat, i: nat): (part: seq<octet>)
    requires i < count && ContainerShape(contents, count) && UsedOctet(contents, count, i) <= PAGE_OCTETS
    ensures |part| == UsedOctet(contents, count, i)
  {
    contents[1 + 83 * i..1 + 83 * i + UsedOctet(contents, count, i)]
  }

  /** The receiver's view: the page count, then each page cut to its used length and refilled. */
  function ContainedPages(contents: seq<octet>, alphabet: Alphabet): Option<seq<Page>> {
    if contents == [] then None
    else
      var count: nat := contents[0];
      if !ContainerShape(contents, count) then None
      else if exists i | 0 <= i < count :: !Cuttable(UsedOctet(contents, count, i), alphabet) then None
      else
        Some(seq(count, i requires 0 <= i < count =>
          Page(i + 1, count, 16 * (i + 1) + count, Refill(PagePart(contents, count, i), alphabet))))
  }

  lemma {:induction false} BlockAt(pages: seq<Page>, n: nat, alphabet: Alphabet, i: nat)
    requires i < n <= |pages| && forall p | p in pages :: |p.data| == PAGE_OCTETS
    ensures PageBlocks(pages, n, alphabet)[83 * i..83 * i + 82] == pages[i].data
    ensures PageBlocks(pages, n, alphabet)[83 * i + 82] == UsedOf(pages, i, alphabet)
  {
    hide Used;
    assert pages[n - 1] in pages;
    var before := PageBlocks(pages, n - 1, alphabet);
    var all := PageBlocks(pages, n, alphabet);
    assert all == before + pages[n - 1].data + [UsedOf(pages, n - 1, alphabet)];
    if i == n - 1 {
      assert |before| == 83 * i;
    } else {
      BlockAt(pages, n - 1, alphabet, i);
      assert all[83 * i..83 * i + 82] == before[83 * i..83 * i + 82];
    }
  }

  lemma PageBack(pages: seq<Page>, alphabet: Alphabet, i: nat)
    requires i < |pages| <= MAX_PAGES && forall p | p in pages :: |p.data| == PAGE_OCTETS
    ensures
      var contents := Contents(pages, alphabet);
      && ContainerShape(contents, |pages|)
      && Cuttable(UsedOctet(contents, |pages|, i), alphabet)
      && Refill(PagePart(contents, |pages|, i), alphabet) == pages[i].data
  {
    hide Used, Refill, PageBlocks;
    assert pages[i] in pages;
    var contents := Contents(pages, alphabet);
    var blocks := PageBlocks(pages, |pages|, alphabet);
    BlockAt(pages, |pages|, alphabet, i);
    UsedIsShortest(pages[i].data, alphabet);
    var used := UsedOf(pages, i, alphabet);
    assert UsedOctet(contents, |pages|, i) == blocks[83 * i + 82] == used;
    assert PagePart(contents, |pages|, i) == blocks[83 * i..83 * i + 82][..used] == pages[i].data[..used];
  }

  /** The container is lossless: a receiver gets back every page, octet for octet. */
  lemma ContainerReadBack(pages: seq<Page>, alphabet: Alphabet)
    requires WellNumbered(pages) && forall p | p in pages :: |p.data| == PAGE_OCTETS
    ensures ContainedPages(Contents(pages, alphabet), alphabet) == Some(pages)
    ensures |Contents(pages, alphabet)| == 1 + 83 * |pages| <= 1246
  {
    hide Refill, PageBlocks, UsedOctet, PagePart;
    var contents := Contents(pages, alphabet);
    forall i | 0 <= i < |pages|
      ensures ContainerShape(contents, |pages|) && Cuttable(UsedOctet(contents, |pages|, i), alphabet)
      ensures Refill(PagePart(contents, |pages|, i), alphabet) == pages[i].data
    {
      PageBack(pages, alphabet, i);
    }
    PageBack(pages, alphabet, 0);
    assert ContainedPages(contents, alphabet).value == pages;
  }

  /** u octets of the page are used: what follows them is filler, and their last character is none. */
  predicate UsedUpTo(data: seq<octet>, alphabet: Alphabet, u: nat)
    requires |data| == 82 && u <= 82
  {
    match alphabet
    case Gsm7 => (forall k | u <= k < 82 :: data[k] == 0x0d) && (u > 0 ==> data[u - 1] != 0x0d)
    case Ucs2 =>
      && u % 2 == 0
      && (forall k | u <= k < 82 :: data[k] == if k % 2 == 0 then 0x00 else 0x0d)
      && (u > 0 ==> data[u - 2] != 0x00 || data[u - 1] != 0x0d)
  }

  /**
   The container octet by octet: the number of pages, then for each its 82
   octets and a length, which is 82 for all but the last.
   */
  lemma ContentsOctets(pages: seq<Page>, alphabet: Alphabet, i: nat)
    requires i < |pages| <= 15 && forall p | p in pages :: |p.data| == 82
    ensures
      var c, n := Contents(pages, alphabet), |pages|;
      && |c| == 1 + 83 * n && c[0] == n
      && c[1 + 83 * i..83 + 83 * i] == pages[i].data
      && (i < n - 1 ==> c[83 + 83 * i] == 82)
      && (i == n - 1 ==> c[83 + 83 * i] <= 82 && UsedUpTo(pages[i].data, alphabet, c[83 + 83 * i]))
  {
    hide UsedGsm, UsedUcs2, PageBlocks;
    assert pages[i] in pages;
    var blocks := PageBlocks(pages, |pages|, alphabet);
    BlockAt(pages, |pages|, alphabet, i);
    assert Contents(pages, alphabet)[1 + 83 * i..83 + 83 * i] == blocks[83 * i..83 * i + 82];
    if alphabet.Ucs2? {
      UsedUcs2Pads(pages[i].data, PAGE_OCTETS);
    } else {
      UsedGsmPads(pages[i].data, PAGE_OCTETS);
    }
  }

  method BuildContents(pages: seq<Page>, alphabet: Alphabet) returns (r: Result<seq<octet>, CbsError>)
    ensures !(1 <= |pages| <= 15) ==> r == Failure(BadPageCount)
    ensures 1 <= |pages| <= 15 && !PagesOk(pages) ==> r == Failure(BadPage)
    ensures 1 <= |pages| <= 15 && PagesOk(pages) ==>
      (forall p | p in pages :: |p.data| == 82) && r == Success(Contents(pages, alphabet))
  {
    hide Used;
    if |pages| == 0 || |pages| > MAX_PAGES {
      return Failure(BadPageCount);
    }
    var contents: seq<octet> := [|pages|];
    for i := 0 to |pages|
      invariant forall k | 0 <= k < i ::
        |pages[k].data| == PAGE_OCTETS && pages[k].number == k + 1 && pages[k].total == |pages|
      invariant PagesOk(pages) ==>
        (forall p | p in pages :: |p.data| == PAGE_OCTETS) && contents == [|pages|] + PageBlocks(pages, i, alphabet)
    {
      var page := pages[i];
      if |page.data| != PAGE_OCTETS || page.number != i + 1 || page.total != |pages| {
        return Failure(BadPage);
      }
      contents := contents + page.data;
      var used: octet := PAGE_OCTETS;
      if i == |pages| - 1 {
        used := UsedOctets(page, alphabet);
      }
      contents := contents + [used];
    }
    return Success(contents);
  }

  // The PLMN

  predicate IsSpace(c: char) {
    var u := c as int;
    0x09 <= u <= 0x0d || u in {0x20, 0x85, 0xa0, 0x1680, 0x2028, 0x2029, 0x202f, 0x205f, 0x3000}
      || 0x2000 <= u <= 0x200a
  }

  function TrimSpace(s: string): string
    decreases |s|
  {
    if s == [] then []
    else if IsSpace(s[0]) then TrimSpace(s[1..])
    else if IsSpace(s[|s| - 1]) then TrimSpace(s[..|s| - 1])
    else s
  }

  function DropDashes(s: string): string {
    if s == [] then [] else (if s[0] == '-' then [] else [s[0]]) + DropDashes(s[1..])
  }

  function Nibble(c: char): (d: octet)
    requires '0' <= c <= '9'
    ensures d < 10
  {
    c as int - '0' as int
  }

  /** low | high << 4 */
  function NibblePair(low: octet, high: octet): octet
    requires low < 16 && high < 16
  {
    Or(16 * high, low)
  }

  lemma NibblePairParts(low: octet, high: octet)
    requires low < 16 && high < 16
    ensures NibblePair(low, high) % 16 == low && NibblePair(low, high) / 16 == high
  {
    hide Or;
    OrNibbles(high, low);
  }

  function PlmnTbcd(v: string): Result<seq<octet>, CbsError> {
    var d := DropDashes(TrimSpace(v));
    if |d| != 5 && |d| != 6 then Failure(BadPlmn)
    else if !AllDigits(d) then Failure(BadPlmn)
    else
      Success([NibblePair(Nibble(d[0]), Nibble(d[1])),
               NibblePair(Nibble(d[2]), if |d| == 6 then Nibble(d[3]) else 0x0f),
               NibblePair(Nibble(d[|d| - 2]), Nibble(d[|d| - 1]))])
  }

  function Nibbles(bcd: seq<octet>): (nibbles: seq<octet>)
    requires |bcd| == 3
    ensures forall n | n in nibbles :: n < 16
  {
    var mnc3: octet := bcd[1] / 16;
    [bcd[0] % 16, bcd[0] / 16, bcd[1] % 16] + (if mnc3 == 0x0f then [] else [mnc3]) + [bcd[2] % 16, bcd[2] / 16]
  }

  /** The PLMN digits of three TBCD octets: a filler nibble means a two-digit MNC. */
  function TbcdDigits(bcd: seq<octet>): Option<string>
    requires |bcd| == 3
  {
    var nibbles := Nibbles(bcd);
    if exists i | 0 <= i < |nibbles| :: nibbles[i] > 9 then None
    else Some(seq(|nibbles|, i requires 0 <= i < |nibbles| => DecimalDigit(nibbles[i])))
  }

  lemma NibblesBack(v: string)
    requires PlmnTbcd(v).Success?
    ensures
      var d := DropDashes(TrimSpace(v));
      AllDigits(d) && Nibbles(PlmnTbcd(v).value) == seq(|d|, i requires 0 <= i < |d| => Nibble(d[i]))
  {
    hide NibblePair, DropDashes, TrimSpace, Nibble;
    var d := DropDashes(TrimSpace(v));
    NibblePairParts(Nibble(d[0]), Nibble(d[1]));
    NibblePairParts(Nibble(d[2]), if |d| == 6 then Nibble(d[3]) else 0x0f);
    NibblePairParts(Nibble(d[|d| - 2]), Nibble(d[|d| - 1]));
    var nibbles := seq(|d|, i requires 0 <= i < |d| => Nibble(d[i]));
    if |d| == 5 {
      assert nibbles == [Nibble(d[0]), Nibble(d[1]), Nibble(d[2]), Nibble(d[3]), Nibble(d[4])];
    } else {
      assert nibbles == [Nibble(d[0]), Nibble(d[1]), Nibble(d[2]), Nibble(d[3]), Nibble(d[4]), Nibble(d[5])];
    }
  }

  /** A PLMN is accepted exactly when it has 5 or 6 digits, and the wire form gives all of them back. */
  lemma PlmnReadBack(v: string)
    ensures
      var d := DropDashes(TrimSpace(v));
      && (PlmnTbcd(v).Success? <==> 5 <= |d| <= 6 && AllDigits(d))
      && (PlmnTbcd(v).Success? ==> |PlmnTbcd(v).value| == 3 && TbcdDigits(PlmnTbcd(v).value) == Some(d))
  {
    hide NibblePair, DropDashes, TrimSpace, Nibbles;
    var d := DropDashes(TrimSpace(v));
    if PlmnTbcd(v).Success? {
      NibblesBack(v);
      assert TbcdDigits(PlmnTbcd(v).value).value == d;
    }
  }

  lemma {:induction false} DigitsKept(s: string)
    requires forall c | c in s :: '0' <= c <= '9'
    ensures DropDashes(s) == s
  {
    if s != [] {
      assert s[0] in s && forall c | c in s[1..] :: c in s;
      DigitsKept(s[1..]);
      assert s == [s[0]] + s[1..];
    }
  }

  lemma {:induction false} DashDropped(a: string, b: string)
    requires forall c | c in a + b :: '0' <= c <= '9'
    ensures DropDashes(a + "-" + b) == a + b
    decreases |a|
  {
    assert forall c | c in b :: c in a + b;
    if a == [] {
      assert (a + "-" + b)[1..] == b && a + b == b;
      DigitsKept(b);
    } else {
      assert (a + "-" + b)[1..] == a[1..] + "-" + b;
      assert a[0] in a + b && forall c | c in a[1..] + b :: c in a + b;
      DashDropped(a[1..], b);
      assert a + b == [a[0]] + (a[1..] + b);
    }
  }

  lemma Untrimmed(s: string)
    requires forall c | c in s :: '0' <= c <= '9' || c == '-'
    ensures TrimSpace(s) == s
  {
    if s != [] {
      assert s[0] in s && s[|s| - 1] in s;
    }
  }

  function Digit(c: char): int {
    c as int - 48
  }

  /**
   A PLMN, with or without a dash between its codes, as three octets: each
   holds two digits, the earlier one in its low half, and a two-digit network
   code leaves 15 in the fourth place.
   */
  lemma PlmnOctets(mcc: string, mnc: string)
    requires |mcc| == 3 && 2 <= |mnc| <= 3 && forall c | c in mcc + mnc :: '0' <= c <= '9'
    ensures PlmnTbcd(mcc + "-" + mnc) == PlmnTbcd(mcc + mnc)
    ensures PlmnTbcd(mcc + mnc).Success?
    ensures PlmnTbcd(mcc + mnc).value
         == if |mnc| == 2
            then [16 * Digit(mcc[1]) + Digit(mcc[0]), 240 + Digit(mcc[2]), 16 * Digit(mnc[1]) + Digit(mnc[0])]
            else [16 * Digit(mcc[1]) + Digit(mcc[0]), 16 * Digit(mnc[0]) + Digit(mcc[2]),
                  16 * Digit(mnc[2]) + Digit(mnc[1])]
  {
    hide TrimSpace, DropDashes, Or;
    var d := mcc + mnc;
    assert forall c | c in mcc + "-" + mnc :: c in d || c == '-';
    Untrimmed(d);
    Untrimmed(mcc + "-" + mnc);
    DigitsKept(d);
    DashDropped(mcc, mnc);
    assert forall i | 0 <= i < |d| :: d[i] in d;
    OrNibbles(Nibble(d[1]), Nibble(d[0]));
    OrNibbles(if |d| == 6 then Nibble(d[3]) else 15, Nibble(d[2]));
    OrNibbles(Nibble(d[|d| - 1]), Nibble(d[|d| - 2]));
  }

  // The warning area

  function TargetValues(target: Target): seq<string> {
    if target.scope == TRACKING_AREA_WIDE then target.trackingAreas
    else if target.scope == CELL_WIDE then target.cells
    else []
  }

  datatype Wire = Wire(plmn: seq<octet>, ids: seq<uint32>)

  /** A target's PLMN and numeric identifiers; `parse` reads an unsigned 32-bit literal. */
  ghost predicate IsTargetWire(target: Target, plmn: string, parse: string -> Option<uint32>, wire: Wire) {
    && PlmnTbcd(plmn) == Success(wire.plmn)
    && PLMN_WIDE <= target.scope <= CELL_WIDE
    && |wire.ids| == |TargetValues(target)|
    && forall i | 0 <= i < |wire.ids| :: parse(TargetValues(target)[i]) == Some(wire.ids[i])
  }

  method TargetWire(target: Target, plmn: string, parse: string -> Option<uint32>) returns (r: Result<Wire, CbsError>)
    ensures r.Success? ==> IsTargetWire(target, plmn, parse, r.value)
    ensures r.Failure? ==> forall wire :: !IsTargetWire(target, plmn, parse, wire)
    ensures PlmnTbcd(plmn).Failure? ==> r == Failure(BadPlmn)
    ensures PlmnTbcd(plmn).Success? && !(PLMN_WIDE <= target.scope <= CELL_WIDE) ==> r == Failure(BadScope)
  {
    hide PlmnTbcd;
    assert PlmnTbcd(plmn).Failure? ==> PlmnTbcd(plmn) == Failure(BadPlmn) by { PlmnError(plmn); }
    var bcd := PlmnTbcd(plmn);
    if bcd.Failure? {
      return Failure(bcd.error);
    }
    var values: seq<string> := [];
    if target.scope == TRACKING_AREA_WIDE {
      values := target.trackingAreas;
    } else if target.scope == CELL_WIDE {
      values := target.cells;
    }
    if target.scope != PLMN_WIDE && target.scope != TRACKING_AREA_WIDE && target.scope != CELL_WIDE {
      return Failure(BadScope);
    }
    var ids: seq<uint32> := [];
    for i := 0 to |values|
      invariant |ids| == i
      invariant forall k | 0 <= k < i :: parse(values[k]) == Some(ids[k])
    {
      var n := parse(values[i]);
      if n.None? {
        return Failure(BadTarget);
      }
      ids := ids + [n.value];
    }
    return Success(Wire(bcd.value, ids));
  }

  lemma PlmnError(plmn: string)
    ensures PlmnTbcd(plmn).Failure? ==> PlmnTbcd(plmn) == Failure(BadPlmn)
  {
    hide DropDashes, TrimSpace, AllDigits;
  }

  // The whole message

  /** The octets of a Write-Replace-Warning-Request for a prepared message. */
  ghost predicate IsWriteReplace(
    m: Message, repetition: uint16, broadcasts: uint16, plmn: string, parse: string -> Option<uint32>, pdu: seq<octet>)
  {
    && 1 <= |m.pages| <= MAX_PAGES
    && PagesOk(m.pages)
    && (forall p | p in m.pages :: |p.data| == PAGE_OCTETS)
    && exists wire ::
      && IsTargetWire(m.target, plmn, parse, wire)
      && Messages.WriteReplaceTarget(
           m.messageId, m.serial, m.dcs, Contents(m.pages, m.alphabet), repetition, broadcasts,
           m.target.scope, wire.plmn, wire.ids) == Success(pdu)
  }

  method SbcapWriteReplace(
    m: Message, repetition: uint16, broadcasts: uint16, plmn: string, parse: string -> Option<uint32>)
    returns (r: Result<seq<octet>, CbsError>)
    ensures r.Success? ==> IsWriteReplace(m, repetition, broadcasts, plmn, parse, r.value)
    ensures r.Failure? ==> forall pdu :: !IsWriteReplace(m, repetition, broadcasts, plmn, parse, pdu)
  {
    hide Messages.WriteReplaceTarget, Contents, PagesOk, PlmnTbcd;
    var contents := BuildContents(m.pages, m.alphabet);
    if contents.Failure? {
      return Failure(contents.error);
    }
    var wire := TargetWire(m.target, plmn, parse);
    if wire.Failure? {
      return Failure(wire.error);
    }
    forall other: Wire | IsTargetWire(m.target, plmn, parse, other)
      ensures other == wire.value
    {
      OneWire(m.target, plmn, parse, other, wire.value);
    }
    var pdu := Messages.WriteReplaceTarget(
      m.messageId, m.serial, m.dcs, contents.value, repetition, broadcasts, m.target.scope, wire.value.plmn,
        wire.value.ids);
    if pdu.Failure? {
      return Failure(NotEncoded(pdu.error));
    }
    return Success(pdu.value);
  }

  /** The octets of the Stop-Warning-Request for a prepared message. */
  ghost predicate IsStop(m: Message, plmn: string, parse: string -> Option<uint32>, pdu: seq<octet>) {
    exists wire ::
      && IsTargetWire(m.target, plmn, parse, wire)
      && Messages.StopTarget(m.messageId, m.serial, m.target.scope, wire.plmn, wire.ids) == Success(pdu)
  }

  method SbcapStop(m: Message, plmn: string, parse: string -> Option<uint32>) returns (r: Result<seq<octet>, CbsError>)
    ensures r.Success? ==> IsStop(m, plmn, parse, r.value)
    ensures r.Failure? ==> forall pdu :: !IsStop(m, plmn, parse, pdu)
  {
    hide Messages.StopTarget, IsTargetWire;
    var wire := TargetWire(m.target, plmn, parse);
    if wire.Failure? {
      return Failure(wire.error);
    }
    forall other: Wire | IsTargetWire(m.target, plmn, parse, other)
      ensures other == wire.value
    {
      OneWire(m.target, plmn, parse, other, wire.value);
    }
    var pdu := Messages.StopTarget(m.messageId, m.serial, m.target.scope, wire.value.plmn, wire.value.ids);
    if pdu.Failure? {
      return Failure(NotEncoded(pdu.error));
    }
    return Success(pdu.value);
  }

  lemma OneWire(target: Target, plmn: string, parse: string -> Option<uint32>, a: Wire, b: Wire)
    requires IsTargetWire(target, plmn, parse, a) && IsTargetWire(target, plmn, parse, b)
    ensures a == b
  {
    hide PlmnTbcd, TargetValues;
    assert forall i | 0 <= i < |a.ids| :: Some(a.ids[i]) == Some(b.ids[i]);
    assert a.ids == b.ids;
  }

  /** The text a receiver reads out of warning message contents that carry n units, knowing only the coding scheme. */
  function ReceivedText(contents: seq<octet>, dcs: octet, n: nat): Option<seq<rune>> {
    var alphabet := AlphabetOf(dcs);
    match ContainedPages(contents, alphabet)
    case None => None
    case Some(pages) =>
      if exists i | 0 <= i < |pages| :: |pages[i].data| != PAGE_OCTETS then None
      else if n > (if alphabet.Gsm7? then 93 else 41) * |pages| then None
      else Received(Content(pages, dcs, alphabet), n)
  }

  /**
   From an accepted text to the wire and back: whatever text the page encoder
   accepts, in whatever language, the receiver of the request's octets reads
   the same text, under the same identifiers, coding scheme and warning area.
   */
  lemma TextReachesTheReceiver(
    text: seq<rune>, language: string, m: Message, repetition: uint16, broadcasts: uint16,
    plmn: string, parse: string -> Option<uint32>, pdu: seq<octet>)
    requires IsEncoding(text, language, Content(m.pages, m.dcs, m.alphabet))
    requires IsWriteReplace(m, repetition, broadcasts, plmn, parse, pdu)
    ensures
      var request := Messages.ReadWriteReplace(pdu);
      && request.Success?
      && request.value.ids == Messages.Ids(m.messageId, m.serial)
      && request.value.dcs == m.dcs
      && request.value.repetition == repetition && request.value.broadcasts == broadcasts
      && ReceivedText(request.value.contents, request.value.dcs, UnitCount(text)) == Some(text)
      && exists wire :: IsTargetWire(m.target, plmn, parse, wire)
           && request.value.area == Messages.AreaOf(m.target.scope, wire.plmn, wire.ids)
  {
    hide Messages.WriteReplaceTarget, Messages.ReadWriteReplace, Messages.AreaOf, IsTargetWire, Contents,
      ContainedPages,
      WellNumbered, UnitCount, Received, PagesOk, AlphabetOf, GsmPaged, Ucs2Paged, TextSeptets, Accepts, Dcs;
    EncodingReadBack(text, language, Content(m.pages, m.dcs, m.alphabet));
    var wire :|
      && IsTargetWire(m.target, plmn, parse, wire)
      && Messages.WriteReplaceTarget(
           m.messageId, m.serial, m.dcs, Contents(m.pages, m.alphabet), repetition, broadcasts,
           m.target.scope, wire.plmn, wire.ids) == Success(pdu);
    Messages.WriteReplaceReadBack(
      m.messageId, m.serial, m.dcs, Contents(m.pages, m.alphabet), repetition, broadcasts,
      m.target.scope, wire.plmn, wire.ids);
    ContainerReadBack(m.pages, m.alphabet);
  }

  /** A stop request names, to its receiver, the very broadcast it is to end: same identifiers, same warning area. */
  lemma StopNamesTheBroadcast(
    m: Message, repetition: uint16, broadcasts: uint16, plmn: string, parse: string -> Option<uint32>,
    write: seq<octet>, stop: seq<octet>)
    requires IsWriteReplace(m, repetition, broadcasts, plmn, parse, write) && IsStop(m, plmn, parse, stop)
    ensures Messages.RequestIds(stop) == Messages.RequestIds(write) == Success(Messages.Ids(m.messageId, m.serial))
    ensures Messages.ReadWriteReplace(write).Success? && Pdu.DecodePdu(stop).Success?
    ensures Messages.ReadAreaIE(Pdu.DecodePdu(stop).value.ies) == Success(Messages.ReadWriteReplace(write).value.area)
  {
    hide Messages.WriteReplaceTarget, Messages.StopTarget, Messages.ReadWriteReplace, Messages.RequestIds,
      Pdu.DecodePdu,
      Messages.ReadAreaIE, Messages.CorrelationIds, Messages.AreaOf, IsTargetWire, Contents, PagesOk;
    var contents := Contents(m.pages, m.alphabet);
    var w :|
      && IsTargetWire(m.target, plmn, parse, w)
      && Messages.WriteReplaceTarget(
           m.messageId, m.serial, m.dcs, contents, repetition, broadcasts, m.target.scope, w.plmn, w.ids)
             == Success(write);
    var v :|
      && IsTargetWire(m.target, plmn, parse, v)
      && Messages.StopTarget(m.messageId, m.serial, m.target.scope, v.plmn, v.ids) == Success(stop);
    OneWire(m.target, plmn, parse, v, w);
    Messages.WriteReplaceReadBack(
      m.messageId, m.serial, m.dcs, contents, repetition, broadcasts, m.target.scope, w.plmn, w.ids);
    Messages.StopReadBack(m.messageId, m.serial, m.target.scope, v.plmn, v.ids);
    Messages.RequestIdsReadBack(
      m.messageId, m.serial, m.dcs, contents, repetition, broadcasts, m.target.scope, w.plmn, w.ids);
  }
}
