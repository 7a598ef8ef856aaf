/**
 * The slice of the page the content script touches: element trees as values,
 * heading elements and the document as objects whose fields the script
 * updates, and the browser effects (history, clipboard, scrolling) as a trace.
 */
module Dom {

  /** The N of an `hN` tag. */
  type Rank = n: int | 1 <= n <= 6 witness 1

  function Digit(n: Rank): (c: char)
    ensures '1' <= c <= '6'
  {
    ('0' as int + n) as char
  }

  /** `tagName` of an `hN` element in an HTML document: upper case. */
  function TagName(n: Rank): string
  {
    ['H', Digit(n)]
  }

  /** `tagName.toLowerCase()`: the `HeadingLevel` string `hN`. */
  function LevelName(n: Rank): string
  {
    ['h', Digit(n)]
  }

  /** `/^H[1-6]$/.test(tagName)`. */
  predicate IsHeadingTag(tag: string)
  {
    |tag| == 2 && tag[0] == 'H' && '1' <= tag[1] <= '6'
  }

  /** `/^H[1-6]$/` matches exactly the tag names of the six heading elements. */
  lemma HeadingTagIff(tag: string)
    ensures IsHeadingTag(tag) <==> exists n: Rank :: TagName(n) == tag
  {
    if IsHeadingTag(tag) {
      var n: Rank := tag[1] as int - '0' as int;
      assert TagName(n) == tag;
    }
  }

  /** A node of an element tree; `className` is the element's one class name. */
  datatype Node =
    | Text(data: string)
    | Element(tagName: string, className: string, attributes: map<string, string>, children: seq<Node>)

  /** `textContent` of an element with these children: its text nodes in tree order. */
  function TextContent(nodes: seq<Node>): string
  {
    if nodes == [] then ""
    else
      var first := match nodes[0]
        case Text(data) => data
        case Element(_, _, _, children) => TextContent(children);
      first + TextContent(nodes[1..])
  }

  /** `textContent` distributes over concatenation of the children. */
  lemma {:induction false} TextContentAppend(a: seq<Node>, b: seq<Node>)
    ensures TextContent(a + b) == TextContent(a) + TextContent(b)
  {
    if a != [] {
      assert (a + b)[1..] == a[1..] + b;
      TextContentAppend(a[1..], b);
    } else {
      assert a + b == b;
    }
  }

  /** `querySelector('.' + cls)` on an element with these children finds something. */
  predicate ContainsClass(nodes: seq<Node>, cls: string)
  {
    if nodes == [] then false
    else
      (nodes[0].Element? && (nodes[0].className == cls || ContainsClass(nodes[0].children, cls)))
      || ContainsClass(nodes[1..], cls)
  }

  /** `querySelector('h1, h2, h3, h4, h5, h6')` on an element with these children finds something. */
  predicate ContainsHeading(nodes: seq<Node>)
  {
    if nodes == [] then false
    else
      (nodes[0].Element? && (IsHeadingTag(nodes[0].tagName) || ContainsHeading(nodes[0].children)))
      || ContainsHeading(nodes[1..])
  }

  /** An `h1`–`h6` element of the page. */
  class Heading {
    /** The N of its `hN` tag. */
    const rank: Rank
    /** Whether `closest('.markdown-body, .comment-body, [class*="Discussion"], article, main')` finds an element. */
    const inContainer: bool
    /** Its `id` attribute; `""` when it has none. */
    var id: string
    var children: seq<Node>

    constructor(rank: Rank, inContainer: bool, id: string, children: seq<Node>)
      ensures this.rank == rank && this.inContainer == inContainer
      ensures this.id == id && this.children == children
    {
      this.rank := rank;
      this.inContainer := inContainer;
      this.id := id;
      this.children := children;
    }
  }

  /** A table-of-contents container appended to `document.body`. */
  class Aside {
    constructor()
    {
    }
  }

  /** The page. */
  class Document {
    /** Every `h1`–`h6` element, in document order. */
    const headings: seq<Heading>
    /** The values of the `id` attributes in the page. */
    var ids: set<string>
    /** The table-of-contents containers attached to `document.body`. */
    var asides: set<Aside>
    /** Whether `querySelector('.Layout-main, .Layout-sidebar')` finds an element. */
    const hasMainContent: bool
    /** That element's `style.marginRight`. */
    var marginRight: string

    constructor(headings: seq<Heading>, ids: set<string>, hasMainContent: bool)
      ensures this.headings == headings && this.ids == ids
      ensures this.hasMainContent == hasMainContent
      ensures asides == {} && marginRight == ""
    {
      this.headings := headings;
      this.ids := ids;
      this.asides := {};
      this.hasMainContent := hasMainContent;
      this.marginRight := "";
    }

    /** The headings are distinct elements, and every id a heading carries can be found in the page. */
    ghost predicate Valid()
      reads this, headings
    {
      && (forall i, j :: 0 <= i < j < |headings| ==> headings[i] != headings[j])
      && (forall h :: h in headings && h.id != "" ==> h.id in ids)
    }
  }

  /** What the script asks of the browser, in the order it asks it. */
  datatype Effect =
    | PushState(url: string)
    | WriteClipboard(text: string)
    | ShowToast
    | ScrollIntoView(id: string)
}
