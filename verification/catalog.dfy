/** The in-memory record store of the product manager: the sequence of
    products, the pointer to the record under edit, and the handlers that
    change them (`addProduct`, `editProduct`, `deleteProduct`, `clearForm` in
    assets/js/main.js). Each handler returns the new state, the form as it is
    left on screen, the banner left showing, and the sequence handed to the
    durable slot when the handler writes it. */
module Catalog {
  import opened Wrappers
  import opened Text
  import opened ProductForm

  /** One product record. `image` is the encoded picture as the file reader
      produced it, `id` the creation time in milliseconds. */
  datatype Product = Product(
    name: string,
    price: string,
    category: string,
    description: string,
    image: string,
    fileName: string,
    id: int)

  /** `products` and `currentIndex`. */
  datatype State = State(products: seq<Product>, editing: Option<nat>)

  /** The banners of `showMessage`; each one replaces the previous one. */
  datatype Message =
    | Invalid(problem: Problem)
    | ProductAdded
    | ProductUpdated
    | EditingProduct
    | ProductDeleted
    | StorageFull

  /** The outcome of one handler: the new state, the form left on screen, the
      last banner shown (if any) and the sequence written to storage (if any). */
  datatype Step = Step(state: State, form: Form, banner: Option<Message>, write: Option<seq<Product>>)

  /** The form `clearForm` leaves: every field empty, no file selected. */
  const EmptyForm: Form := Form("", "", "", "", None)

  /** The edit pointer designates an existing record. */
  predicate EditTargetValid(s: State) {
    s.editing.Some? ==> s.editing.value < |s.products|
  }

  /** A record as validation admits it: trimmed name and category that pass
      their patterns, a valid price and description, an image file name. */
  predicate WellFormed(p: Product) {
    && Trim(p.name) == p.name && NamePattern(p.name)
    && PriceOk(p.price)
    && Trim(p.category) == p.category && CategoryPattern(p.category)
    && DescriptionOk(p.description)
    && ImageNameOk(p.fileName)
  }

  predicate AllWellFormed(ps: seq<Product>) {
    forall k :: 0 <= k < |ps| ==> WellFormed(ps[k])
  }

  /** `createProductObject`: name and category are trimmed, the other fields
      are taken as they are; `now` stands for `Date.now()`. */
  function MakeProduct(f: Form, imageData: string, now: int): (p: Product)
    requires f.file.Some?
    ensures p.name == Trim(f.name) && p.category == Trim(f.category)
    ensures p.price == f.price && p.description == f.description
    ensures p.image == imageData && p.fileName == f.file.value && p.id == now
  {
    Product(Trim(f.name), f.price, Trim(f.category), f.description, imageData, f.file.value, now)
  }

  /** A record built from a form that passed validation is well formed. */
  lemma MadeProductWellFormed(f: Form, imageData: string, now: int)
    requires IsValid(f)
    ensures WellFormed(MakeProduct(f, imageData, now))
  {
    TrimIdempotent(f.name);
    TrimIdempotent(f.category);
  }

  /** `clearForm`'s effect on the store: nothing is under edit any more. */
  function ClearEdit(s: State): (r: State)
    ensures r.products == s.products && r.editing.None?
  {
    State(s.products, None)
  }

  /** `handleSubmit`/`addProduct`: a form that fails validation changes
      nothing and leaves the warning of the last failing check; a valid form
      appends a new record, or replaces the record under edit, clears the
      form and the edit pointer and writes the sequence to storage. When that
      write fails (`writeOk` false) its warning replaces the success banner. */
  function Submit(s: State, f: Form, imageData: string, now: int, writeOk: bool): (r: Step)
    requires EditTargetValid(s)
    ensures !IsValid(f) ==> r.state == s && r.form == f && r.write.None?
    ensures !IsValid(f) ==> r.banner == Some(Invalid(ShownProblem(f)))
    ensures IsValid(f) ==> r.state.editing.None? && r.form == EmptyForm && r.write == Some(r.state.products)
    ensures IsValid(f) && s.editing.None? ==>
              && |r.state.products| == |s.products| + 1
              && r.state.products[..|s.products|] == s.products
              && r.state.products[|s.products|] == MakeProduct(f, imageData, now)
    ensures IsValid(f) && s.editing.Some? ==>
              && |r.state.products| == |s.products|
              && r.state.products[s.editing.value] == MakeProduct(f, imageData, now)
              && forall k :: 0 <= k < |s.products| && k != s.editing.value ==> r.state.products[k] == s.products[k]
    ensures IsValid(f) && writeOk ==> r.banner == Some(if s.editing.None? then ProductAdded else ProductUpdated)
    ensures IsValid(f) && !writeOk ==> r.banner == Some(StorageFull)
  {
    if !IsValid(f) then
      Step(s, f, Some(Invalid(ShownProblem(f))), None)
    else
      var p := MakeProduct(f, imageData, now);
      var products := match s.editing
        case None => s.products + [p]
        case Some(i) => s.products[i := p];
      var success := if s.editing.None? then ProductAdded else ProductUpdated;
      var banner := if writeOk then success else StorageFull;
      Step(ClearEdit(State(products, s.editing)), EmptyForm, Some(banner), Some(products))
  }

  /** `editProduct`: the record's name, price, category and description are
      copied into the form (the file input is left as it was) and the record
      becomes the one under edit. */
  function StartEdit(s: State, f: Form, i: nat): (r: Step)
    requires i < |s.products|
    ensures r.state.products == s.products && r.state.editing == Some(i)
    ensures r.form == Form(s.products[i].name, s.products[i].price, s.products[i].category, s.products[i].description, f.file)
    ensures r.banner == Some(EditingProduct) && r.write.None?
  {
    var p := s.products[i];
    Step(State(s.products, Some(i)), Form(p.name, p.price, p.category, p.description, f.file), Some(EditingProduct), None)
  }

  /** `deleteProduct` as written: once confirmed, `splice(i, 1)` removes the
      record at `i` (nothing when `i` is past the end), the sequence is
      written and the success banner is shown last. The edit pointer is left
      as it was. */
  function DeleteAsWritten(s: State, f: Form, i: nat, confirmed: bool): (r: Step)
    ensures !confirmed ==> r == Step(s, f, None, None)
    ensures confirmed && i < |s.products| ==>
              |r.state.products| == |s.products| - 1 && r.state.products == s.products[..i] + s.products[i + 1..]
    ensures confirmed && i >= |s.products| ==> r.state.products == s.products
    ensures confirmed ==> r.banner == Some(ProductDeleted) && r.write == Some(r.state.products) && r.form == f
    ensures r.state.editing == s.editing
  {
    if !confirmed then Step(s, f, None, None)
    else
      var products := if i < |s.products| then s.products[..i] + s.products[i + 1..] else s.products;
      Step(State(products, s.editing), f, Some(ProductDeleted), Some(products))
  }

  /** Where the edit pointer `e` must point once the record at `i` is removed
      from a sequence of `n` records: the record under edit keeps its pointer,
      shifted down when it came after `i`, and the pointer is cleared when that
      record is the one removed. */
  function ShiftEdit(e: Option<nat>, i: nat, n: nat): Option<nat> {
    match e
    case None => None
    case Some(j) =>
      if i >= n then Some(j)
      else if j == i then None
      else if j > i then Some(j - 1)
      else Some(j)
  }

  /** `deleteProduct` with the edit pointer kept on the record it
      designated: the same removal, write and banner as the code, and a
      pointer that still designates the record under edit, or nothing when
      that record was removed. */
  function Delete(s: State, f: Form, i: nat, confirmed: bool): (r: Step)
    ensures !confirmed ==> r == Step(s, f, None, None)
    ensures confirmed && i < |s.products| ==>
              |r.state.products| == |s.products| - 1 && r.state.products == s.products[..i] + s.products[i + 1..]
    ensures confirmed && i >= |s.products| ==> r.state.products == s.products
    ensures confirmed ==> r.banner == Some(ProductDeleted) && r.write == Some(r.state.products) && r.form == f
    ensures EditTargetValid(s) ==> EditTargetValid(r.state)
    ensures EditTargetValid(s) && s.editing.Some? && !(confirmed && s.editing.value == i) ==>
              && r.state.editing.Some?
              && r.state.products[r.state.editing.value] == s.products[s.editing.value]
    ensures confirmed && s.editing == Some(i) && i < |s.products| ==> r.state.editing.None?
    ensures s.editing.None? ==> r.state.editing.None?
    ensures confirmed && i < |s.products| && s.editing.Some? && s.editing.value != i ==>
              r.state.editing == Some(if s.editing.value > i then s.editing.value - 1 else s.editing.value)
  {
    var w := DeleteAsWritten(s, f, i, confirmed);
    if !confirmed then w
    else w.(state := w.state.(editing := ShiftEdit(s.editing, i, |s.products|)))
  }

  // ---- invariants of the store ----

  /** Helper: appending a well-formed record keeps every record well formed. */
  lemma AppendKeepsWellFormed(ps: seq<Product>, p: Product)
    requires AllWellFormed(ps) && WellFormed(p)
    ensures AllWellFormed(ps + [p])
  {
    assert forall k :: 0 <= k < |ps| ==> (ps + [p])[k] == ps[k];
  }

  /** Helper: replacing a record by a well-formed one keeps every record
      well formed. */
  lemma ReplaceKeepsWellFormed(ps: seq<Product>, i: nat, p: Product)
    requires i < |ps| && AllWellFormed(ps) && WellFormed(p)
    ensures AllWellFormed(ps[i := p])
  {
  }

  /** Helper: removing a record keeps every other record well formed. */
  lemma RemoveKeepsWellFormed(ps: seq<Product>, i: nat)
    requires i < |ps| && AllWellFormed(ps)
    ensures AllWellFormed(ps[..i] + ps[i + 1..])
  {
    var r := ps[..i] + ps[i + 1..];
    assert forall k :: 0 <= k < |r| ==> r[k] == ps[if k < i then k else k + 1];
  }

  /** Submitting keeps the edit pointer valid and admits only well-formed
      records. */
  lemma SubmitPreservesInvariants(s: State, f: Form, imageData: string, now: int, writeOk: bool)
    requires EditTargetValid(s) && AllWellFormed(s.products)
    ensures EditTargetValid(Submit(s, f, imageData, now, writeOk).state)
    ensures AllWellFormed(Submit(s, f, imageData, now, writeOk).state.products)
  {
    if IsValid(f) {
      var p := MakeProduct(f, imageData, now);
      MadeProductWellFormed(f, imageData, now);
      match s.editing
      case None => AppendKeepsWellFormed(s.products, p);
      case Some(i) => ReplaceKeepsWellFormed(s.products, i, p);
    }
  }

  /** Starting an edit keeps both invariants. */
  lemma StartEditPreservesInvariants(s: State, f: Form, i: nat)
    requires i < |s.products| && AllWellFormed(s.products)
    ensures EditTargetValid(StartEdit(s, f, i).state)
    ensures AllWellFormed(StartEdit(s, f, i).state.products)
  {
  }

  /** Deleting keeps both invariants. */
  lemma DeletePreservesInvariants(s: State, f: Form, i: nat, confirmed: bool)
    requires EditTargetValid(s) && AllWellFormed(s.products)
    ensures EditTargetValid(Delete(s, f, i, confirmed).state)
    ensures AllWellFormed(Delete(s, f, i, confirmed).state.products)
  {
    if confirmed && i < |s.products| {
      RemoveKeepsWellFormed(s.products, i);
    }
  }

  /** The fields of a record the form shows and stores. */
  predicate SameFields(p: Product, q: Product) {
    p.name == q.name && p.price == q.price && p.category == q.category && p.description == q.description
  }

  /** Opening a well-formed record for edit and submitting the form
      unchanged, with an image file selected, replaces the record with one
      carrying the same name, price, category and description, touches no
      other record and leaves nothing under edit. */
  lemma EditRoundTrip(s: State, f: Form, i: nat, imageData: string, now: int, writeOk: bool)
    requires i < |s.products| && WellFormed(s.products[i]) && ImageOk(f.file)
    ensures var e := StartEdit(s, f, i);
            var r := Submit(e.state, e.form, imageData, now, writeOk);
            && |r.state.products| == |s.products|
            && SameFields(r.state.products[i], s.products[i])
            && (forall k :: 0 <= k < |s.products| && k != i ==> r.state.products[k] == s.products[k])
            && r.state.editing.None?
            && r.banner == Some(if writeOk then ProductUpdated else StorageFull)
  {
    var e := StartEdit(s, f, i);
    assert IsValid(e.form);
  }

  /** Opening a record for edit without selecting an image file again is
      refused at submit: the file input is empty after the form was cleared. */
  lemma EditWithoutFileRefused(s: State, i: nat, imageData: string, now: int, writeOk: bool)
    requires i < |s.products|
    ensures var e := StartEdit(s, EmptyForm, i);
            var r := Submit(e.state, e.form, imageData, now, writeOk);
            r.state == e.state && MissingImage in Problems(e.form)
  {
  }

  // ---- the code as written: delete leaves the edit pointer alone ----

  /** With three records, open the second for edit, delete the first, and
      submit: the code overwrites the third record and the second, the one
      the user opened, survives unchanged. */
  lemma DeleteAsWrittenRetargetsEdit(a: Product, b: Product, c: Product, f: Form, imageData: string, now: int)
    requires b != c && IsValid(f) && MakeProduct(f, imageData, now) != c
    ensures var e := StartEdit(State([a, b, c], None), f, 1);
            var d := DeleteAsWritten(e.state, e.form, 0, true);
            var r := Submit(d.state, f, imageData, now, true);
            && d.state.products == [b, c]
            && d.state.products[d.state.editing.value] == c
            && r.state.products == [b, MakeProduct(f, imageData, now)]
            && c !in r.state.products
  {
    var e := StartEdit(State([a, b, c], None), f, 1);
    var d := DeleteAsWritten(e.state, e.form, 0, true);
    assert d.state.products == [a, b, c][..0] + [a, b, c][1..] == [b, c];
  }

  /** With two records, open the second for edit and delete the first: the
      pointer now lies past the end of the sequence. */
  lemma DeleteAsWrittenBreaksEditTarget(a: Product, b: Product)
    ensures var e := StartEdit(State([a, b], None), EmptyForm, 1);
            !EditTargetValid(DeleteAsWritten(e.state, EmptyForm, 0, true).state)
  {
    var e := StartEdit(State([a, b], None), EmptyForm, 1);
    assert DeleteAsWritten(e.state, EmptyForm, 0, true).state.products == [a, b][..0] + [a, b][1..] == [b];
  }
}
