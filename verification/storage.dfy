/** The durable slot the catalog is mirrored to (`saveToLocalStorage` and
    `loadFromLocalStorage` in assets/js/main.js). The slot is one optional
    text; JSON serialisation and parsing are parameters, as is whether the
    browser accepts a write. */
module Storage {
  import opened Wrappers
  import opened ProductForm
  import opened Catalog

  /** `loadFromLocalStorage`: an absent or empty slot yields the empty
      catalog, and so does a text `parse` refuses; otherwise the parsed
      catalog. */
  function Load(slot: Option<string>, parse: string -> Option<seq<Product>>): (ps: seq<Product>)
    ensures slot.None? || slot == Some("") ==> ps == []
    ensures slot.Some? && parse(slot.value).None? ==> ps == []
    ensures slot.Some? && slot.value != "" && parse(slot.value).Some? ==> ps == parse(slot.value).value
  {
    match slot
    case None => []
    case Some(text) =>
      if text == "" then []
      else match parse(text)
        case None => []
        case Some(ps) => ps
  }

  /** `saveToLocalStorage`: a successful write replaces the slot with the
      serialised catalog; a failed one (storage full) leaves it as it was. */
  function Save(slot: Option<string>, ps: seq<Product>, serialize: seq<Product> -> string, writeOk: bool): (r: Option<string>)
    ensures writeOk ==> r == Some(serialize(ps))
    ensures !writeOk ==> r == slot
  {
    if writeOk then Some(serialize(ps)) else slot
  }

  /** A successful save is read back unchanged, provided parsing inverts
      serialisation and a serialised catalog is never the empty text. */
  lemma SaveThenLoad(slot: Option<string>, ps: seq<Product>, serialize: seq<Product> -> string, parse: string -> Option<seq<Product>>)
    requires serialize(ps) != "" && parse(serialize(ps)) == Some(ps)
    ensures Load(Save(slot, ps, serialize, true), parse) == ps
  {
  }

  /** Adding a product while the storage is full: the in-memory catalog holds
      the new record and the storage warning is left showing, but the next
      load returns the catalog as it was before the addition. */
  lemma AddWithFailedWriteIsLostOnReload(
    s: State, f: Form, imageData: string, now: int,
    slot: Option<string>, serialize: seq<Product> -> string, parse: string -> Option<seq<Product>>)
    requires EditTargetValid(s) && s.editing.None? && IsValid(f)
    requires Load(slot, parse) == s.products
    ensures var r := Submit(s, f, imageData, now, false);
            && |r.state.products| == |s.products| + 1
            && r.state.products[|s.products|] == MakeProduct(f, imageData, now)
            && r.banner == Some(StorageFull)
            && r.write.Some?
            && Load(Save(slot, r.write.value, serialize, false), parse) == s.products
  {
  }
}
