/** The schema of the glossary: the part-of-speech enumeration, the `Term` row
    with its generic item accessors, and the values those accessors read and write.
    The synonym and similar-word pair tables live with the store (`TermCollection`). */
module Database {
  import opened Wrappers

  /** `POSEnum`: the closed set of part-of-speech tags. */
  datatype POS = Noun | Verb | Adjective

  /** The member name, which is also what the bot's keyboard offers. */
  function PosName(p: POS): string
  {
    match p
    case Noun => "noun"
    case Verb => "verb"
    case Adjective => "adjective"
  }

  /** Looks a tag up by member name, as the enum column does when a string is assigned. */
  function ParsePos(s: string): (r: Option<POS>)
    ensures forall p :: r == Some(p) <==> PosName(p) == s
  {
    if s == "noun" then Some(Noun)
    else if s == "verb" then Some(Verb)
    else if s == "adjective" then Some(Adjective)
    else None
  }

  /** `str(member)` for a plain Python enum: the class name, a dot, the member name. */
  function PosText(p: POS): string
  {
    "POSEnum." + PosName(p)
  }

  /** A row of the `terms` table. `id` is the primary key drawn from a sequence;
      `name` is non-null; the other columns may be null. */
  datatype Term = Term(
    id: nat,
    name: string,
    posTag: Option<POS>,
    description: Option<string>,
    image: Option<string>,
    audiofile: Option<string>,
    videofile: Option<string>)

  /** `Term(name=name)` once the sequence has given it `id`: every optional column null. */
  function Blank(id: nat, name: string): Term
  {
    Term(id, name, None, None, None, None, None)
  }

  /** The columns the item accessors are used with. */
  datatype Attribute = PosTag | Description | Image | Audiofile | Videofile

  /** What a column holds as Python sees it: null, an enum member, or a string. */
  datatype Value = Null | Tag(pos: POS) | Str(s: string)

  /** Python truthiness: null and the empty string are false, an enum member is true. */
  predicate Truthy(v: Value)
  {
    match v
    case Null => false
    case Tag(_) => true
    case Str(s) => |s| > 0
  }

  /** The values a column can hold: the enum column no strings, the text columns no tags. */
  predicate Fits(a: Attribute, v: Value)
  {
    if a == PosTag then !v.Str? else !v.Tag?
  }

  function OfString(o: Option<string>): Value
  {
    match o
    case None => Null
    case Some(s) => Str(s)
  }

  function ToString(v: Value): Option<string>
  {
    match v
    case Str(s) => Some(s)
    case _ => None
  }

  /** `term[key]`. */
  function GetItem(t: Term, a: Attribute): (v: Value)
    ensures Fits(a, v)
  {
    match a
    case PosTag => (match t.posTag case None => Null case Some(p) => Tag(p))
    case Description => OfString(t.description)
    case Image => OfString(t.image)
    case Audiofile => OfString(t.audiofile)
    case Videofile => OfString(t.videofile)
  }

  /** `term[key] = value`: the item then reads back as `v`, every other item and
      the id and name are as before. */
  function SetItem(t: Term, a: Attribute, v: Value): (r: Term)
    requires Fits(a, v)
    ensures GetItem(r, a) == v
    ensures forall b :: b != a ==> GetItem(r, b) == GetItem(t, b)
    ensures r.id == t.id && r.name == t.name
  {
    match a
    case PosTag => t.(posTag := if v.Tag? then Some(v.pos) else None)
    case Description => t.(description := ToString(v))
    case Image => t.(image := ToString(v))
    case Audiofile => t.(audiofile := ToString(v))
    case Videofile => t.(videofile := ToString(v))
  }

  /** Writing back what was read changes nothing. */
  lemma SetItemOfGetItem(t: Term, a: Attribute)
    ensures SetItem(t, a, GetItem(t, a)) == t
  {
  }

  /** A term is determined by its id, its name and its five items. */
  lemma {:induction false} TermExtensional(t: Term, u: Term)
    requires t.id == u.id && t.name == u.name
    requires forall a :: GetItem(t, a) == GetItem(u, a)
    ensures t == u
  {
    assert GetItem(t, PosTag) == GetItem(u, PosTag);
    assert GetItem(t, Description) == GetItem(u, Description);
    assert GetItem(t, Image) == GetItem(u, Image);
    assert GetItem(t, Audiofile) == GetItem(u, Audiofile);
    assert GetItem(t, Videofile) == GetItem(u, Videofile);
  }

  /** A fresh row reads null on every item. */
  lemma BlankIsNull(id: nat, name: string, a: Attribute)
    ensures GetItem(Blank(id, name), a) == Null
  {
  }

  /** The value a string assignment `term[key] = val` stores: the enum column takes
      the tag whose member name is `val` and has no value for any other string. */
  function ColumnValue(a: Attribute, val: string): (r: Option<Value>)
    ensures r.Some? ==> Fits(a, r.value)
    ensures a != PosTag ==> r == Some(Str(val))
    ensures a == PosTag ==> (r.Some? <==> ParsePos(val).Some?)
    ensures a == PosTag && r.Some? ==> r.value == Tag(ParsePos(val).value)
  {
    if a == PosTag then
      match ParsePos(val)
      case None => None
      case Some(p) => Some(Tag(p))
    else Some(Str(val))
  }
}
