/** The debugging listing of the dictionary: one line per present node, in pre-order and
    alphabetical order, indented by the node's depth. A line is kept as its depth, the
    letter of its slot and the node's flag; the characters of the text are not modelled. */
module DictionaryListing {
  import opened Dictionary

  datatype Line = Line(depth: nat, ch: char, isWord: bool)

  /** The lines for the child slots of `owner` from slot `from` on, at depth `depth`: a
      present slot gives its own line followed by the lines of its children one level
      deeper. */
  function RenderFrom(owner: Letter, from: nat, depth: nat): (lines: seq<Line>)
    requires Valid(owner.possibleNextLetters) && from <= AlphabetSize
    decreases owner, AlphabetSize - from
  {
    if from == AlphabetSize then []
    else
      match owner.possibleNextLetters[from]
      case Empty => RenderFrom(owner, from + 1, depth)
      case Present(l) =>
        [Line(depth, SlotChar(from), l.isWord)] + RenderFrom(l, 0, depth + 1) + RenderFrom(owner, from + 1, depth)
  }

  /** The listing of a whole dictionary: its root vector rendered at depth 0. The root
      vector is wrapped in a default letter only so that the rendering can decrease on
      a `Letter`; the wrapper's own character and flag are never listed. */
  function Listing(words: seq<Entry>): (lines: seq<Line>)
    requires Valid(words)
  {
    RenderFrom(DefaultLetter.(possibleNextLetters := words), 0, 0)
  }

  /** Every line for the slots of `owner` lies at `depth` or deeper, and the first one at
      `depth` itself. */
  lemma {:induction false} RenderFromShape(owner: Letter, from: nat, depth: nat)
    requires Valid(owner.possibleNextLetters) && from <= AlphabetSize
    ensures var lines := RenderFrom(owner, from, depth);
      (forall i | 0 <= i < |lines| :: lines[i].depth >= depth) &&
      (lines != [] ==> lines[0].depth == depth)
    decreases owner, AlphabetSize - from
  {
    if from < AlphabetSize {
      RenderFromShape(owner, from + 1, depth);
      match owner.possibleNextLetters[from]
      case Empty =>
      case Present(l) =>
        ChildValid(owner.possibleNextLetters, from);
        RenderFromShape(l, 0, depth + 1);
    }
  }

  /** How many lines at the front of `lines` lie deeper than `depth`. */
  function SubtreeLength(lines: seq<Line>, depth: nat): (n: nat)
    ensures n <= |lines|
    ensures forall i | 0 <= i < n :: lines[i].depth > depth
    ensures n < |lines| ==> lines[n].depth <= depth
  {
    if lines == [] || lines[0].depth <= depth then 0 else 1 + SubtreeLength(lines[1..], depth)
  }

  /** Reading a listing back: each line fills the slot of its letter with a node whose
      children are read from the deeper lines right after it (a line whose letter is not
      a lowercase letter is dropped with its deeper lines). */
  function Parse(lines: seq<Line>, depth: nat): (slots: seq<Entry>)
    ensures |slots| == AlphabetSize
    decreases |lines|
  {
    if lines == [] then Blank()
    else
      var n := SubtreeLength(lines[1..], depth);
      var children := Parse(lines[1..1 + n], depth + 1);
      var rest := Parse(lines[1 + n..], depth);
      if IsLower(lines[0].ch) then
        rest[Index(lines[0].ch) := Present(Letter(lines[0].ch, lines[0].isWord, children))]
      else rest
  }

  /** The child vector of `owner` with the slots before `from` emptied. */
  function SlotsFrom(owner: Letter, from: nat): seq<Entry>
    requires |owner.possibleNextLetters| == AlphabetSize
  {
    seq(AlphabetSize, i requires 0 <= i < AlphabetSize =>
      if i < from then Empty else owner.possibleNextLetters[i])
  }

  lemma SlotsFromBounds(owner: Letter, from: nat)
    requires |owner.possibleNextLetters| == AlphabetSize && from <= AlphabetSize
    ensures SlotsFrom(owner, 0) == owner.possibleNextLetters
    ensures from == AlphabetSize ==> SlotsFrom(owner, from) == Blank()
    ensures from < AlphabetSize ==>
              SlotsFrom(owner, from) == SlotsFrom(owner, from + 1)[from := owner.possibleNextLetters[from]]
    ensures from < AlphabetSize && owner.possibleNextLetters[from] == Empty ==>
              SlotsFrom(owner, from) == SlotsFrom(owner, from + 1)
  {
  }

  lemma {:induction false} SubtreeLengthOfPrefix(a: seq<Line>, b: seq<Line>, depth: nat)
    requires forall i | 0 <= i < |a| :: a[i].depth > depth
    requires b != [] ==> b[0].depth <= depth
    ensures SubtreeLength(a + b, depth) == |a|
    decreases |a|
  {
    if a != [] {
      assert (a + b)[1..] == a[1..] + b;
      SubtreeLengthOfPrefix(a[1..], b, depth);
    }
  }

  /** A line followed by its deeper lines and then by lines no deeper than it is read as
      one node, placed in the slot of its letter over what the later lines give. */
  lemma ParseGroup(head: Line, sub: seq<Line>, rest: seq<Line>, depth: nat)
    requires IsLower(head.ch)
    requires forall i | 0 <= i < |sub| :: sub[i].depth > depth
    requires rest != [] ==> rest[0].depth <= depth
    ensures Parse([head] + sub + rest, depth) ==
              Parse(rest, depth)[Index(head.ch) := Present(Letter(head.ch, head.isWord, Parse(sub, depth + 1)))]
  {
    var lines := [head] + sub + rest;
    assert lines[1..] == sub + rest;
    SubtreeLengthOfPrefix(sub, rest, depth);
    assert lines[1..1 + |sub|] == sub;
    assert lines[1 + |sub|..] == rest;
  }

  /** Reading back the lines rendered for the slots of `owner` from `from` on gives back
      exactly those slots. */
  lemma {:induction false} ParseRenderFrom(owner: Letter, from: nat, depth: nat)
    requires Valid(owner.possibleNextLetters) && from <= AlphabetSize
    ensures Parse(RenderFrom(owner, from, depth), depth) == SlotsFrom(owner, from)
    decreases owner, AlphabetSize - from
  {
    var slots := owner.possibleNextLetters;
    SlotsFromBounds(owner, from);
    if from < AlphabetSize {
      match slots[from]
      case Empty =>
        assert RenderFrom(owner, from, depth) == RenderFrom(owner, from + 1, depth);
        ParseRenderFrom(owner, from + 1, depth);
      case Present(l) =>
        ChildValid(slots, from);
        ParseRenderFrom(l, 0, depth + 1);
        ParseRenderFrom(owner, from + 1, depth);
        ParsePresentSlot(owner, from, depth);
    }
  }

  /** The lines of a present slot: its own line, its children's lines, then the lines of
      the later slots. */
  lemma RenderPresentSlot(owner: Letter, from: nat, depth: nat)
    requires Valid(owner.possibleNextLetters) && from < AlphabetSize
    requires owner.possibleNextLetters[from].Present?
    requires Valid(owner.possibleNextLetters[from].letter.possibleNextLetters)
    ensures var l := owner.possibleNextLetters[from].letter;
      RenderFrom(owner, from, depth) ==
        [Line(depth, SlotChar(from), l.isWord)] + RenderFrom(l, 0, depth + 1) + RenderFrom(owner, from + 1, depth)
  {
  }

  /** The step of the round trip at a present slot, given the round trips for the node's
      children and for the later slots. */
  lemma ParsePresentSlot(owner: Letter, from: nat, depth: nat)
    requires Valid(owner.possibleNextLetters) && from < AlphabetSize
    requires owner.possibleNextLetters[from].Present?
    requires Valid(owner.possibleNextLetters[from].letter.possibleNextLetters)
    requires Parse(RenderFrom(owner.possibleNextLetters[from].letter, 0, depth + 1), depth + 1)
               == SlotsFrom(owner.possibleNextLetters[from].letter, 0)
    requires Parse(RenderFrom(owner, from + 1, depth), depth) == SlotsFrom(owner, from + 1)
    ensures Parse(RenderFrom(owner, from, depth), depth) == SlotsFrom(owner, from)
  {
    var l := owner.possibleNextLetters[from].letter;
    ChildValid(owner.possibleNextLetters, from);
    SlotsFromBounds(owner, from);
    SlotsFromBounds(l, 0);
    var head := Line(depth, SlotChar(from), l.isWord);
    var sub := RenderFrom(l, 0, depth + 1);
    var rest := RenderFrom(owner, from + 1, depth);
    RenderPresentSlot(owner, from, depth);
    RenderFromShape(l, 0, depth + 1);
    RenderFromShape(owner, from + 1, depth);
    ParseGroup(head, sub, rest, depth);
    assert Index(SlotChar(from)) == from;
    assert Letter(SlotChar(from), l.isWord, l.possibleNextLetters) == l;
  }

  /** The listing loses nothing: reading it back rebuilds the dictionary it was made from. */
  lemma ListingRoundTrip(words: seq<Entry>)
    requires Valid(words)
    ensures Parse(Listing(words), 0) == words
  {
    var root := DefaultLetter.(possibleNextLetters := words);
    ParseRenderFrom(root, 0, 0);
    assert SlotsFrom(root, 0) == words;
  }

  /** to_string_recursive: the lines of the present slots of `owner`, in slot order,
      each followed by the lines of its children one level deeper. */
  method ToStringRecursive(owner: Letter, spaces: nat) returns (lines: seq<Line>)
    requires Valid(owner.possibleNextLetters)
    ensures lines == RenderFrom(owner, 0, spaces)
    decreases owner
  {
    lines := [];
    var i := 0;
    while i < AlphabetSize
      invariant 0 <= i <= AlphabetSize
      invariant lines + RenderFrom(owner, i, spaces) == RenderFrom(owner, 0, spaces)
      decreases AlphabetSize - i
    {
      match owner.possibleNextLetters[i] {
        case Empty =>
          assert RenderFrom(owner, i, spaces) == RenderFrom(owner, i + 1, spaces);
        case Present(letter) =>
          ChildValid(owner.possibleNextLetters, i);
          RenderPresentSlot(owner, i, spaces);
          var below := ToStringRecursive(letter, spaces + 1);
          ghost var before := lines;
          lines := lines + [Line(spaces, SlotChar(i), letter.isWord)] + below;
          assert lines + RenderFrom(owner, i + 1, spaces) == before + RenderFrom(owner, i, spaces);
      }
      i := i + 1;
    }
  }

  /** to_string: the listing of the whole dictionary, from which the dictionary can be
      read back unchanged. The root vector is wrapped in a default letter only for the
      termination measure of ToStringRecursive. */
  method ToString(dict: DebugDictionary) returns (lines: seq<Line>)
    requires Valid(dict.words)
    ensures lines == Listing(dict.words)
    ensures Parse(lines, 0) == dict.words
  {
    lines := ToStringRecursive(DefaultLetter.(possibleNextLetters := dict.words), 0);
    ListingRoundTrip(dict.words);
  }
}
