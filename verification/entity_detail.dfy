/** The entity detail page (frontend/src/pages/EntityDetail.jsx): which
    attributes it shows, which URLs it treats as images, the expand and collapse
    state of the main image and the attribute images, and the scroll-to-top
    button. */
module EntityDetail {
  import opened Options
  import opened Strings
  import opened OrderedMap
  import opened Schemas
  import opened AttributeCodec

  /** `isImage`: a missing or empty URL is not an image; any other URL is one
      when it ends, case-sensitively, with a dot and one of the five image
      extensions. */
  predicate IsImage(url: Option<string>) {
    && Truthy(url)
    && (|| EndsWith(url.value, ".jpeg") || EndsWith(url.value, ".jpg")
        || EndsWith(url.value, ".gif") || EndsWith(url.value, ".png")
        || EndsWith(url.value, ".webp"))
  }

  /** The extensions the image test accepts. */
  predicate ImageExtension(e: string) {
    e == "jpeg" || e == "jpg" || e == "gif" || e == "png" || e == "webp"
  }

  /** The text after the last dot of `u`, or nothing when `u` has no dot. */
  function AfterLastDot(u: string): (r: Option<string>)
    ensures r.Some? ==> '.' !in r.value && |r.value| < |u|
    ensures r.Some? ==> u == u[..|u| - |r.value| - 1] + ['.'] + r.value
    ensures r.None? ==> '.' !in u
  {
    if u == [] then None
    else if u[|u| - 1] == '.' then Some([])
    else
      var init := u[..|u| - 1];
      match AfterLastDot(init)
      case None =>
        assert u == init + [u[|u| - 1]];
        None
      case Some(e) =>
        assert init == init[..|init| - |e| - 1] + ['.'] + e;
        assert u == init + [u[|u| - 1]];
        Some(e + [u[|u| - 1]])
  }

  /** A dot followed by dot-free text: that text is what follows the last dot. */
  lemma {:induction false} AfterLastDotOf(p: string, e: string)
    requires '.' !in e
    ensures AfterLastDot(p + ['.'] + e) == Some(e)
    decreases |e|
  {
    var u := p + ['.'] + e;
    if e != [] {
      var init := e[..|e| - 1];
      assert u[..|u| - 1] == p + ['.'] + init;
      assert '.' !in init;
      AfterLastDotOf(p, init);
      assert init + [e[|e| - 1]] == e;
    }
  }

  /** A URL ends with a dot and dot-free `x` exactly when `x` is what follows its last dot. */
  lemma EndsWithExtension(u: string, x: string)
    requires '.' !in x
    ensures EndsWith(u, ['.'] + x) <==> AfterLastDot(u) == Some(x)
  {
    if EndsWith(u, ['.'] + x) {
      var p := u[..|u| - |x| - 1];
      assert u == p + ['.'] + x;
      AfterLastDotOf(p, x);
    }
    if AfterLastDot(u) == Some(x) {
      assert u[|u| - |x| - 1..] == ['.'] + x;
    }
  }

  /** The image test is the same as asking whether the text after the URL's
      last dot is one of the five extensions. */
  lemma IsImageByExtension(u: string)
    ensures IsImage(Some(u)) <==> AfterLastDot(u).Some? && ImageExtension(AfterLastDot(u).value)
  {
    DottedExtensions();
    EndsWithExtension(u, "jpeg");
    EndsWithExtension(u, "jpg");
    EndsWithExtension(u, "gif");
    EndsWithExtension(u, "png");
    EndsWithExtension(u, "webp");
    if AfterLastDot(u).Some? {
      assert |u| > 0;
    }
  }

  lemma DottedExtensions()
    ensures ['.'] + "jpeg" == ".jpeg" && ['.'] + "jpg" == ".jpg" && ['.'] + "gif" == ".gif"
    ensures ['.'] + "png" == ".png" && ['.'] + "webp" == ".webp"
  {
  }

  /** The attributes the page lists: the active values of the dictionary, in
      iteration order, which is what the edit page loads into its rows. */
  function Displayed(attrs: OMap<Attr>): (r: seq<Attr>)
    ensures |r| <= |attrs|
    ensures forall i :: 0 <= i < |r| ==> r[i].active && r[i] in Values(attrs)
    ensures forall i :: 0 <= i < |attrs| && attrs[i].1.active ==> attrs[i].1 in r
  {
    Decode(attrs)
  }

  /** "No dynamic attributes found." appears exactly when no stored attribute is active. */
  lemma EmptyMessage(attrs: OMap<Attr>)
    ensures |Displayed(attrs)| == 0 <==> forall i :: 0 <= i < |attrs| ==> !attrs[i].1.active
  {
    var d := Displayed(attrs);
    if |d| > 0 {
      var j :| 0 <= j < |attrs| && Values(attrs)[j] == d[0];
      assert attrs[j].1.active;
    }
  }

  /** The page's expand state: whether the main image is enlarged, and the
      own entries of the plain `expandedKeys` object. */
  datatype Expansion = Expansion(mainImage: bool, keys: map<string, bool>)

  /** The members every plain JavaScript object inherits from `Object.prototype`.
      Each is a function or, for `__proto__`, the prototype object itself, so
      reading one of them from an object without such an own entry is truthy. */
  const InheritedNames: set<string> := {
    "constructor", "__defineGetter__", "__defineSetter__", "hasOwnProperty",
    "__lookupGetter__", "__lookupSetter__", "isPrototypeOf", "propertyIsEnumerable",
    "toString", "valueOf", "__proto__", "toLocaleString"
  }

  /** Whether `expandedKeys[k]` is truthy: an own entry is read as stored; a
      missing key reads as collapsed unless it names an inherited member. */
  function IsExpanded(keys: map<string, bool>, k: string): (r: bool)
    ensures k in keys ==> (r <==> keys[k])
    ensures k !in keys ==> (r <==> k in InheritedNames)
  {
    if k in keys then keys[k] else k in InheritedNames
  }

  /** `toggleExpand(key)`: the spread copy gets an own entry for the key holding
      the negation of what the key read as (so a first click on a key naming an
      inherited member collapses it); every other key keeps its entry. */
  function ToggleExpand(x: Expansion, k: string): (r: Expansion)
    ensures IsExpanded(r.keys, k) == !IsExpanded(x.keys, k)
    ensures forall j :: j != k ==> (j in r.keys <==> j in x.keys)
    ensures forall j :: j != k && j in x.keys ==> r.keys[j] == x.keys[j]
    ensures r.mainImage == x.mainImage
  {
    x.(keys := x.keys[k := !IsExpanded(x.keys, k)])
  }

  /** Toggling the same key twice leaves every key reading as before. */
  lemma ToggleTwice(x: Expansion, k: string, j: string)
    ensures IsExpanded(ToggleExpand(ToggleExpand(x, k), k).keys, j) == IsExpanded(x.keys, j)
  {
  }

  /** Clicking the main image flips its enlarged view. */
  function ClickMainImage(x: Expansion): (r: Expansion)
    ensures r.mainImage == !x.mainImage && r.keys == x.keys
  {
    x.(mainImage := !x.mainImage)
  }

  /** Clicking the enlarged main image closes it; the attribute images keep their state. */
  function CloseMainImage(x: Expansion): (r: Expansion)
    ensures !r.mainImage && r.keys == x.keys
    ensures forall e :: !ShowsMainImage(r, e)
  {
    x.(mainImage := false)
  }

  /** The keys `expandAll` sets: the record key of every active image
      attribute, in iteration order. (Assigning `__proto__` on the fresh object
      creates no own entry, but that name reads as truthy either way.) */
  function ImageKeys(vals: seq<Attr>): (r: map<string, bool>)
    ensures r.Keys == set i | 0 <= i < |vals| && vals[i].active && IsImage(vals[i].url) :: vals[i].key
    ensures forall k :: k in r ==> r[k]
  {
    if vals == [] then map[]
    else
      var init := vals[..|vals| - 1];
      var a := vals[|vals| - 1];
      var m := ImageKeys(init);
      assert forall i :: 0 <= i < |init| ==> vals[i] == init[i];
      if a.active && IsImage(a.url) then m[a.key := true] else m
  }

  /** `expandAll`: the main image is enlarged when the entity has one (and
      otherwise keeps its state), and the keys that read as expanded become
      exactly those of the active image attributes, together with the
      inherited member names. */
  function ExpandAll(x: Expansion, e: EntityBase): (r: Expansion)
    ensures Truthy(e.imageUrl) ==> r.mainImage
    ensures !Truthy(e.imageUrl) ==> r.mainImage == x.mainImage
    ensures forall k :: IsExpanded(r.keys, k) <==>
      || (exists i :: 0 <= i < |e.attributes| && e.attributes[i].1.active
                   && IsImage(e.attributes[i].1.url) && e.attributes[i].1.key == k)
      || k in InheritedNames
  {
    var keys := ImageKeys(Values(e.attributes));
    Expansion(if Truthy(e.imageUrl) then true else x.mainImage, keys)
  }

  /** `collapseAll`: the main image is closed and the keys object is emptied,
      so a key reads as expanded exactly when it names an inherited member. */
  function CollapseAll(x: Expansion): (r: Expansion)
    ensures !r.mainImage
    ensures forall k :: IsExpanded(r.keys, k) <==> k in InheritedNames
  {
    Expansion(false, map[])
  }

  /** The large copy of the main image is drawn when it is enlarged and the entity has one. */
  predicate ShowsMainImage(x: Expansion, e: EntityBase) {
    x.mainImage && Truthy(e.imageUrl)
  }

  /** The large copy of an attribute's image is drawn when its URL is an image and its key is expanded. */
  predicate ShowsAttrImage(x: Expansion, a: Attr) {
    IsImage(a.url) && IsExpanded(x.keys, a.key)
  }

  /** After "expand all", every listed image attribute and the main image (if
      any) are drawn large; after "collapse all", the main image is not, and an
      image attribute still is exactly when its key names an inherited member
      (an attribute keyed "constructor" cannot be collapsed). */
  lemma ExpandCollapseAll(x: Expansion, e: EntityBase)
    ensures Truthy(e.imageUrl) ==> ShowsMainImage(ExpandAll(x, e), e)
    ensures forall a :: a in Displayed(e.attributes) && IsImage(a.url) ==> ShowsAttrImage(ExpandAll(x, e), a)
    ensures !ShowsMainImage(CollapseAll(x), e)
    ensures forall a :: ShowsAttrImage(CollapseAll(x), a) <==> IsImage(a.url) && a.key in InheritedNames
  {
    var d := Displayed(e.attributes);
    forall a | a in d && IsImage(a.url) ensures ShowsAttrImage(ExpandAll(x, e), a) {
      var j :| 0 <= j < |d| && d[j] == a;
      assert a in Values(e.attributes);
      var i :| 0 <= i < |e.attributes| && Values(e.attributes)[i] == a;
      assert e.attributes[i].1 == a;
    }
  }

  /** The scroll handler: the scroll-to-top button shows once the page has
      scrolled more than 300 pixels. */
  function ShowScrollTop(scrollY: real): (r: bool)
    ensures r ==> scrollY > 300.0
    ensures scrollY > 300.0 ==> r
  {
    scrollY > 300.0
  }

  /** Scrolling further down never hides the button. */
  lemma ScrollTopMonotone(y1: real, y2: real)
    requires y1 <= y2
    ensures ShowScrollTop(y1) ==> ShowScrollTop(y2)
  {
  }
}
