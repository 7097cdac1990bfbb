/** The client's item manager: a price cache keyed by item id with two
    sentinels (EMPTY: not yet looked up, NONE: the item has no price), the
    stack-size label drawn over item icons, and the pixel pass that makes an
    item sprite's background transparent. */
module ItemManager {
  import opened Primitives
  import opened NumberText

  /** A looked-up price record; the cache logic never opens it. */
  datatype ItemPrice = ItemPrice(id: int, price: int)

  /** What the price cache holds for an item id. */
  datatype CachedPrice =
    | Empty               // the EMPTY sentinel: not yet looked up
    | NoPrice             // the NONE sentinel: the item has no price
    | Priced(price: ItemPrice)

  /** What ItemClient.lookupItemPrice yields: a price, null, or an IOException. */
  datatype PriceLookup = Found(price: ItemPrice) | NotFound | IoFailure

  datatype Error =
    | LookupFailed   // the lookup raised an IOException
    | NullPrice      // the lookup returned null, which the cache's put rejects

  /** The entry settles a call without a lookup: present and not EMPTY. */
  predicate Settled(cache: map<int32, CachedPrice>, itemId: int32) {
    itemId in cache && cache[itemId] != Empty
  }

  /** The answer a settled entry gives: no price for NONE, the price otherwise. */
  function CachedAnswer(entry: CachedPrice): (answer: Option<ItemPrice>)
    requires entry != Empty
    ensures answer.None? <==> entry == NoPrice
    ensures answer.Some? ==> entry == Priced(answer.value)
  {
    match entry
    case NoPrice => None
    case Priced(p) => Some(p)
  }

  class ItemManager {
    /** The item price cache. */
    var itemPrices: map<int32, CachedPrice>
    /** The keys for which a cache refresh was requested, oldest first. */
    var refreshRequests: seq<int32>
    /** The remote price service. */
    const lookupItemPrice: int32 -> PriceLookup

    constructor (lookup: int32 -> PriceLookup)
      ensures itemPrices == map[] && refreshRequests == [] && lookupItemPrice == lookup
    {
      itemPrices := map[];
      refreshRequests := [];
      lookupItemPrice := lookup;
    }

    /** get: the asynchronous lookup. A settled entry answers at once; a
        missing or EMPTY entry answers "not loaded yet" and asks the cache to
        refresh that key. The cache itself never changes here. */
    method Get(itemId: int32) returns (price: Option<ItemPrice>)
      modifies this`refreshRequests
      ensures itemPrices == old(itemPrices)
      ensures Settled(itemPrices, itemId) ==>
        price == CachedAnswer(itemPrices[itemId]) && refreshRequests == old(refreshRequests)
      ensures !Settled(itemPrices, itemId) ==>
        price == None && refreshRequests == old(refreshRequests) + [itemId]
    {
      if itemId in itemPrices && itemPrices[itemId] != Empty {
        price := CachedAnswer(itemPrices[itemId]);
        return;
      }
      refreshRequests := refreshRequests + [itemId];
      price := None;
    }

    /** getItemPrice: the synchronous lookup. A settled entry answers at once;
        otherwise the price service is asked, its price stored under that key
        alone and returned. A failed lookup leaves the cache as it was. */
    method GetItemPrice(itemId: int32) returns (r: Result<Option<ItemPrice>, Error>)
      modifies this`itemPrices
      ensures Settled(old(itemPrices), itemId) ==>
        r == Success(CachedAnswer(old(itemPrices)[itemId])) && itemPrices == old(itemPrices)
      ensures !Settled(old(itemPrices), itemId) ==>
        match lookupItemPrice(itemId)
        case Found(p) => r == Success(Some(p)) && itemPrices == old(itemPrices)[itemId := Priced(p)]
        case NotFound => r == Failure(NullPrice) && itemPrices == old(itemPrices)
        case IoFailure => r == Failure(LookupFailed) && itemPrices == old(itemPrices)
      ensures forall k :: k != itemId ==> (k in itemPrices <==> k in old(itemPrices))
      ensures forall k :: k != itemId && k in itemPrices ==> itemPrices[k] == old(itemPrices)[k]
    {
      if itemId in itemPrices && itemPrices[itemId] != Empty {
        return Success(CachedAnswer(itemPrices[itemId]));
      }
      match lookupItemPrice(itemId)
      case Found(p) =>
        itemPrices := itemPrices[itemId := Priced(p)];
        r := Success(Some(p));
      case NotFound =>
        r := Failure(NullPrice);
      case IoFailure =>
        r := Failure(LookupFailed);
    }
  }

  /** After a successful synchronous lookup the entry is settled on that
      price, so the next get or getItemPrice of that item answers from the
      cache; every other entry is as it was. */
  lemma StoredPriceSettles(cache: map<int32, CachedPrice>, itemId: int32, p: ItemPrice)
    ensures Settled(cache[itemId := Priced(p)], itemId)
    ensures CachedAnswer(cache[itemId := Priced(p)][itemId]) == Some(p)
    ensures forall k :: k != itemId ==> Settled(cache[itemId := Priced(p)], k) == Settled(cache, k)
  {
  }

  // ---------------------------------------------------------------- stack size

  /** quantityToStackSize: millions from 10,000,000 up, thousands from 100,000
      up, the plain number below. */
  function QuantityToStackSize(quantity: int32): (text: string)
    ensures LabelUnit(text) ==
      if quantity >= 10_000_000 then 1_000_000
      else if quantity >= 100_000 then 1_000
      else 1
  {
    if quantity >= 10_000_000 then Abbreviate(quantity as int, 'M')
    else if quantity >= 100_000 then Abbreviate(quantity as int, 'K')
    else IntToString(quantity as int)
  }

  /** Each stack-size label reads as the quantity truncated to its unit. */
  lemma StackSizeReadsAs(quantity: int32)
    ensures ReadsAs(QuantityToStackSize(quantity), quantity as int)
  {
    if quantity >= 10_000_000 {
      AbbreviateReadsAs(quantity as int, 'M');
    } else if quantity >= 100_000 {
      AbbreviateReadsAs(quantity as int, 'K');
    } else {
      PlainReadsAs(quantity as int);
    }
  }

  // ---------------------------------------------------------------- sprite pixels

  /** One pixel of loadImage's pass: a non-zero pixel gets alpha 0xff and keeps
      its colour; a zero pixel stays 0, fully transparent. */
  function OpaquePixel(p: bv32): (q: bv32)
    ensures q == 0 <==> p == 0
    ensures p != 0 ==> q >> 24 == 0xff && q & 0xff_ffff == p & 0xff_ffff
  {
    if p == 0 then 0 else p | 0xff00_0000
  }

  /** The loop of loadImage: a fresh zeroed array as long as the sprite's
      pixels, where each non-zero pixel is written made opaque. */
  method TransparentPixels(pixels: array<bv32>) returns (transPixels: array<bv32>)
    ensures fresh(transPixels) && transPixels.Length == pixels.Length
    ensures forall i :: 0 <= i < pixels.Length ==> transPixels[i] == OpaquePixel(pixels[i])
  {
    transPixels := new bv32[pixels.Length](_ => 0);
    for i := 0 to pixels.Length
      invariant forall j :: 0 <= j < i ==> transPixels[j] == OpaquePixel(pixels[j])
      invariant forall j :: i <= j < pixels.Length ==> transPixels[j] == 0
    {
      if pixels[i] != 0 {
        transPixels[i] := pixels[i] | 0xff00_0000;
      }
    }
  }
}
