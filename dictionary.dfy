/** The prefix-tree dictionary of the word finder: a root vector of 26 slots, one per
    lowercase letter, each slot either empty or holding a letter node that carries an
    "is a word" flag and its own 26 child slots. A word is spelled by walking one slot
    per character from the root. */
module Dictionary {

  datatype Option<T> = None | Some(value: T)

  /** One slot of a child vector. */
  datatype Entry = Empty | Present(letter: Letter)

  /** A trie node: its character, whether the prefix ending here is a word, and the
      26 slots of the letters that may follow. */
  datatype Letter = Letter(c: char, isWord: bool, possibleNextLetters: seq<Entry>)

  /** The dictionary used by the solver; it only holds the root vector. */
  datatype DebugDictionary = DebugDictionary(words: seq<Entry>)

  const AlphabetSize: nat := 26

  /** The node a cursor starts from before the first character is read. */
  const DefaultLetter: Letter := Letter('\0', false, [])

  /** The words the debug dictionary is built from, in their insertion order. */
  const SourceDictionary: seq<string> := ["ad", "bad", "cab", "cad", "ab", "a"]

  predicate IsLower(ch: char) {
    'a' <= ch <= 'z'
  }

  predicate IsLowercase(s: string) {
    forall i | 0 <= i < |s| :: IsLower(s[i])
  }

  predicate AllLowercase(ws: seq<string>) {
    forall j | 0 <= j < |ws| :: IsLowercase(ws[j])
  }

  /** The slot of a letter: its distance from 'a'. */
  function Index(ch: char): (k: nat)
    requires IsLower(ch)
    ensures k < AlphabetSize
  {
    ch as int - 'a' as int
  }

  /** The letter whose slot is k. */
  function SlotChar(k: nat): (ch: char)
    requires k < AlphabetSize
    ensures IsLower(ch) && Index(ch) == k
  {
    ('a' as int + k) as char
  }

  /** The shape every child vector of the dictionary keeps: exactly 26 slots, and the
      node in slot k, if any, is well placed there. */
  predicate Valid(slots: seq<Entry>) {
    |slots| == AlphabetSize &&
    forall k | 0 <= k < AlphabetSize ::
      match slots[k]
      case Empty => true
      case Present(l) => WellPlaced(l, k)
  }

  /** A node in slot k carries the k-th letter of the alphabet, and its own 26 child
      slots are valid in the same way. */
  predicate WellPlaced(l: Letter, k: nat)
    decreases l
  {
    k < AlphabetSize && l.c == SlotChar(k) &&
    |l.possibleNextLetters| == AlphabetSize &&
    forall j | 0 <= j < AlphabetSize ::
      match l.possibleNextLetters[j]
      case Empty => true
      case Present(m) => WellPlaced(m, j)
  }

  /** A node found in a valid child vector carries the letter of its slot, and its own
      child vector is valid. */
  lemma ChildValid(slots: seq<Entry>, k: nat)
    requires Valid(slots) && k < AlphabetSize && slots[k].Present?
    ensures slots[k].letter.c == SlotChar(k) && Valid(slots[k].letter.possibleNextLetters)
  {
  }

  /** A fresh child vector: 26 empty slots. */
  function Blank(): (slots: seq<Entry>)
    ensures Valid(slots)
    ensures forall k | 0 <= k < |slots| :: slots[k] == Empty
  {
    seq(AlphabetSize, _ => Empty)
  }

  /** The node reached by following the letters of w from the root vector `slots`,
      or None at the first empty slot. */
  function Walk(slots: seq<Entry>, w: string): (r: Option<Letter>)
    requires Valid(slots) && IsLowercase(w) && w != []
    ensures r.Some? ==> r.value.c == w[|w| - 1] && Valid(r.value.possibleNextLetters)
    decreases |w|
  {
    match slots[Index(w[0])]
    case Empty => None
    case Present(l) => if |w| == 1 then Some(l) else Walk(l.possibleNextLetters, w[1..])
  }

  /** The dictionary `slots` contains the word w: its walk ends on a node flagged as a
      word. The empty string is never a word. */
  predicate HasWord(slots: seq<Entry>, w: string)
    requires Valid(slots) && IsLowercase(w)
  {
    w != [] && Walk(slots, w).Some? && Walk(slots, w).value.isWord
  }

  /** Walking one more letter goes one slot deeper from where the shorter walk ended. */
  lemma {:induction false} WalkSnoc(slots: seq<Entry>, p: string, ch: char)
    requires Valid(slots) && IsLowercase(p) && p != [] && IsLower(ch)
    ensures IsLowercase(p + [ch])
    ensures Walk(slots, p + [ch]) ==
              match Walk(slots, p)
              case None => None
              case Some(l) =>
                match l.possibleNextLetters[Index(ch)]
                case Empty => None
                case Present(m) => Some(m)
    decreases |p|
  {
    var w := p + [ch];
    assert w[0] == p[0];
    match slots[Index(p[0])]
    case Empty =>
    case Present(l) =>
      if |p| == 1 {
        assert w[1..] == [ch];
      } else {
        assert w[1..] == p[1..] + [ch];
        WalkSnoc(l.possibleNextLetters, p[1..], ch);
      }
  }

  /** Early exit: once the walk for p falls on an empty slot, no extension of p leads
      to a node, so no extension of p is a word. */
  lemma {:induction false} AbsentPrefixClosed(slots: seq<Entry>, p: string, s: string)
    requires Valid(slots) && IsLowercase(p) && IsLowercase(s) && p != []
    requires Walk(slots, p) == None
    ensures IsLowercase(p + s)
    ensures Walk(slots, p + s) == None
    ensures !HasWord(slots, p + s)
    decreases |p|
  {
    var w := p + s;
    assert w[0] == p[0];
    match slots[Index(p[0])]
    case Empty =>
    case Present(l) =>
      assert |p| > 1;
      assert w[1..] == p[1..] + s;
      AbsentPrefixClosed(l.possibleNextLetters, p[1..], s);
  }

  /** The same early exit, for a prefix given by its length. */
  lemma MissingPrefixNoWord(slots: seq<Entry>, w: string, n: nat)
    requires Valid(slots) && IsLowercase(w) && 0 < n <= |w|
    requires Walk(slots, w[..n]) == None
    ensures !HasWord(slots, w)
  {
    var p, s := w[..n], w[n..];
    assert forall i | 0 <= i < |s| :: s[i] == w[n + i];
    assert p + s == w;
    AbsentPrefixClosed(slots, p, s);
  }

  /** Every character that find_word reads is a lowercase letter. The walk reads one
      character per slot and stops at the first empty slot, so the characters after
      that slot are never read and may be anything. */
  predicate ReadsLowercase(slots: seq<Entry>, w: string)
    requires Valid(slots)
    decreases |w|
  {
    w == [] ||
    (IsLower(w[0]) &&
     match slots[Index(w[0])]
     case Empty => true
     case Present(l) =>
       ChildValid(slots, Index(w[0]));
       ReadsLowercase(l.possibleNextLetters, w[1..]))
  }

  /** A string of lowercase letters is read without fault, whatever the dictionary. */
  lemma {:induction false} LowercaseIsRead(slots: seq<Entry>, w: string)
    requires Valid(slots) && IsLowercase(w)
    ensures ReadsLowercase(slots, w)
    decreases |w|
  {
    if w != [] {
      match slots[Index(w[0])]
      case Empty =>
      case Present(l) =>
        ChildValid(slots, Index(w[0]));
        LowercaseIsRead(l.possibleNextLetters, w[1..]);
    }
  }

  /** Early exit, for any suffix: once the walk for p falls on an empty slot, find_word
      reads no character of s, so p + s meets its precondition whatever s holds. */
  lemma {:induction false} AbsentPrefixReadable(slots: seq<Entry>, p: string, s: string)
    requires Valid(slots) && IsLowercase(p) && p != []
    requires Walk(slots, p) == None
    ensures ReadsLowercase(slots, p + s)
    decreases |p|
  {
    var w := p + s;
    assert w[0] == p[0];
    match slots[Index(p[0])]
    case Empty =>
    case Present(l) =>
      ChildValid(slots, Index(p[0]));
      assert |p| > 1;
      assert w[1..] == p[1..] + s;
      AbsentPrefixReadable(l.possibleNextLetters, p[1..], s);
  }

  /** On a dictionary without a 'q' node the walk for "q1" stops at the first slot, so
      the '1' is never read. */
  lemma UnreadCharacterAllowed()
    ensures ReadsLowercase(Blank(), "q1") && !IsLowercase("q1")
  {
    assert Blank()[Index('q')] == Empty;
    assert !IsLower("q1"[1]);
  }

  /** find_word: the cursor starts on the default letter; the first character picks a
      root slot, every later one a child slot of the cursor; an empty slot answers
      false at once, otherwise the final node's flag is the answer. A string with a
      character outside `a`-`z` is answered false when the walk stops before reaching
      that character. */
  method FindWord(dict: DebugDictionary, letters: string) returns (found: bool)
    requires Valid(dict.words) && ReadsLowercase(dict.words, letters)
    ensures found == (IsLowercase(letters) && HasWord(dict.words, letters))
    ensures letters == [] ==> !found
  {
    var currentLetter := DefaultLetter;
    var i := 0;
    while i < |letters|
      invariant 0 <= i <= |letters|
      invariant IsLowercase(letters[..i])
      invariant i == 0 ==> currentLetter == DefaultLetter
      invariant i > 0 ==> Walk(dict.words, letters[..i]) == Some(currentLetter)
      invariant ReadsLowercase(if i == 0 then dict.words else currentLetter.possibleNextLetters, letters[i..])
    {
      var slots := if i == 0 then dict.words else currentLetter.possibleNextLetters;
      assert letters[i..][0] == letters[i] && letters[i..][1..] == letters[i + 1..];
      var index := Index(letters[i]);
      assert letters[..i + 1] == letters[..i] + [letters[i]];
      if i > 0 {
        WalkSnoc(dict.words, letters[..i], letters[i]);
      }
      match slots[index]
      case Empty =>
        if IsLowercase(letters) {
          MissingPrefixNoWord(dict.words, letters, i + 1);
        }
        return false;
      case Present(l) =>
        currentLetter := l;
      i := i + 1;
    }
    assert i > 0 ==> letters[..i] == letters;
    return currentLetter.isWord;
  }

  /** One step of the build on one child vector: an empty slot for ch receives a new node
      whose flag is `last`; an existing node keeps its children and has `last` OR-ed into
      its flag. */
  function TouchSlot(slots: seq<Entry>, ch: char, last: bool): (r: seq<Entry>)
    requires Valid(slots) && IsLower(ch)
    ensures Valid(r)
  {
    var k := Index(ch);
    match slots[k]
    case Empty => slots[k := Present(Letter(ch, last, Blank()))]
    case Present(l) => slots[k := Present(l.(isWord := l.isWord || last))]
  }

  /** The step applied at the child vector of the node that the cursor `path` designates
      (the root vector when the path is empty); everything off that path is kept. */
  function TouchAt(slots: seq<Entry>, path: string, ch: char, last: bool): (r: seq<Entry>)
    requires Valid(slots) && IsLowercase(path) && IsLower(ch)
    requires path != [] ==> Walk(slots, path).Some?
    ensures Valid(r)
    decreases |path|
  {
    if path == [] then TouchSlot(slots, ch, last)
    else
      var k := Index(path[0]);
      var l := slots[k].letter;
      slots[k := Present(l.(possibleNextLetters := TouchAt(l.possibleNextLetters, path[1..], ch, last)))]
  }

  /** The effect of one step: exactly the node for path + [ch] is added, if missing, and
      it becomes a word exactly when `last` holds; every other node and flag is kept. */
  lemma {:induction false} TouchAtEffect(slots: seq<Entry>, path: string, ch: char, last: bool, x: string)
    requires Valid(slots) && IsLowercase(path) && IsLower(ch)
    requires path != [] ==> Walk(slots, path).Some?
    requires IsLowercase(x) && x != []
    ensures Walk(TouchAt(slots, path, ch, last), x).Some? <==> Walk(slots, x).Some? || x == path + [ch]
    ensures HasWord(TouchAt(slots, path, ch, last), x) <==> HasWord(slots, x) || (last && x == path + [ch])
    decreases |path|
  {
    var r := TouchAt(slots, path, ch, last);
    var k := Index(x[0]);
    if path == [] {
      if x[0] != ch {
        assert r[k] == slots[k];
        assert x != path + [ch];
      } else if |x| > 1 {
        assert x != path + [ch];
        match slots[k]
        case Empty =>
          assert Walk(r, x) == Walk(Blank(), x[1..]) == None;
        case Present(l) =>
      }
    } else {
      var l := slots[Index(path[0])].letter;
      var sub := TouchAt(l.possibleNextLetters, path[1..], ch, last);
      if x[0] != path[0] {
        assert r[k] == slots[k];
        assert x != path + [ch];
      } else if |x| == 1 {
        assert x != path + [ch];
      } else {
        assert Walk(r, x) == Walk(sub, x[1..]);
        assert Walk(slots, x) == Walk(l.possibleNextLetters, x[1..]);
        assert x == path + [ch] <==> x[1..] == path[1..] + [ch];
        TouchAtEffect(l.possibleNextLetters, path[1..], ch, last, x[1..]);
      }
    }
  }

  /** A step makes the node of path + [ch] present. */
  lemma {:induction false} TouchAtReaches(slots: seq<Entry>, path: string, ch: char, last: bool)
    requires Valid(slots) && IsLowercase(path) && IsLower(ch)
    requires path != [] ==> Walk(slots, path).Some?
    ensures IsLowercase(path + [ch])
    ensures Walk(TouchAt(slots, path, ch, last), path + [ch]).Some?
  {
    assert IsLowercase(path + [ch]);
    TouchAtEffect(slots, path, ch, last, path + [ch]);
  }

  /** The dictionary after the first i characters of w have been inserted into t: the
      step for character i runs at the node the first i characters lead to, with `last`
      true only for the final character. Every prefix of w up to i has a node. */
  function InsertSteps(t: seq<Entry>, w: string, i: nat): (r: seq<Entry>)
    requires Valid(t) && IsLowercase(w) && i <= |w|
    ensures Valid(r)
    ensures i > 0 ==> Walk(r, w[..i]).Some?
    decreases i
  {
    if i == 0 then t
    else
      var s := InsertSteps(t, w, i - 1);
      assert w[..i] == w[..i - 1] + [w[i - 1]];
      TouchAtReaches(s, w[..i - 1], w[i - 1], i == |w|);
      TouchAt(s, w[..i - 1], w[i - 1], i == |w|)
  }

  /** Inserting a whole word. */
  function Insert(t: seq<Entry>, w: string): (r: seq<Entry>)
    requires Valid(t) && IsLowercase(w)
    ensures Valid(r)
  {
    InsertSteps(t, w, |w|)
  }

  /** The dictionary built from a list of words, inserted in order into 26 empty slots. */
  function Build(ws: seq<string>): (dict: seq<Entry>)
    requires AllLowercase(ws)
    ensures Valid(dict)
    decreases |ws|
  {
    if ws == [] then Blank() else Insert(Build(ws[..|ws| - 1]), ws[|ws| - 1])
  }

  /** After i characters of w, the nodes are the old ones plus the prefixes of w[..i],
      and the words are the old ones, plus w itself once all of it is inserted. */
  lemma {:induction false} InsertStepsEffect(t: seq<Entry>, w: string, i: nat, x: string)
    requires Valid(t) && IsLowercase(w) && i <= |w|
    requires IsLowercase(x) && x != []
    ensures Walk(InsertSteps(t, w, i), x).Some? <==> Walk(t, x).Some? || x <= w[..i]
    ensures HasWord(InsertSteps(t, w, i), x) <==> HasWord(t, x) || (i == |w| && x == w)
    decreases i
  {
    if i > 0 {
      var s := InsertSteps(t, w, i - 1);
      assert InsertSteps(t, w, i) == TouchAt(s, w[..i - 1], w[i - 1], i == |w|);
      InsertStepsEffect(t, w, i - 1, x);
      assert w[..i] == w[..i - 1] + [w[i - 1]];
      TouchAtEffect(s, w[..i - 1], w[i - 1], i == |w|, x);
      assert x <= w[..i] <==> x <= w[..i - 1] || x == w[..i];
      assert i == |w| ==> w[..i] == w;
    }
  }

  /** An empty word has no bytes, so inserting it changes nothing. */
  lemma EmptyWordChangesNothing(t: seq<Entry>)
    requires Valid(t)
    ensures Insert(t, "") == t
  {
  }

  /** Inserting never clears a word flag. */
  lemma InsertKeepsWords(t: seq<Entry>, w: string, x: string)
    requires Valid(t) && IsLowercase(w) && IsLowercase(x)
    requires HasWord(t, x)
    ensures HasWord(Insert(t, w), x)
  {
    InsertStepsEffect(t, w, |w|, x);
  }

  /** The central property of the build: the dictionary contains exactly the non-empty
      words of the list, whatever their order and repetitions. */
  lemma {:induction false} BuildHasExactlyListedWords(ws: seq<string>, x: string)
    requires AllLowercase(ws) && IsLowercase(x)
    ensures HasWord(Build(ws), x) <==> x != [] && x in ws
    decreases |ws|
  {
    if ws != [] && x != [] {
      var init, last := ws[..|ws| - 1], ws[|ws| - 1];
      assert Build(ws) == InsertSteps(Build(init), last, |last|);
      BuildHasExactlyListedWords(init, x);
      InsertStepsEffect(Build(init), last, |last|, x);
      assert x in ws <==> x in init || x == last by {
        assert ws == init + [last];
      }
    }
  }

  /** A node exists exactly for the non-empty prefixes of the listed words. */
  lemma {:induction false} BuildNodesArePrefixes(ws: seq<string>, x: string)
    requires AllLowercase(ws) && IsLowercase(x) && x != []
    ensures Walk(Build(ws), x).Some? <==> IsPrefixOfSome(x, ws)
    decreases |ws|
  {
    if ws != [] {
      var init := ws[..|ws| - 1];
      var last := ws[|ws| - 1];
      BuildNodesArePrefixes(init, x);
      InsertStepsEffect(Build(init), last, |last|, x);
      assert last[..|last|] == last;
      PrefixOfSomeSnoc(x, ws);
    } else {
      assert Walk(Blank(), x) == None;
    }
  }

  /** x is a prefix of some word of the list. */
  predicate IsPrefixOfSome(x: string, ws: seq<string>) {
    exists j | 0 <= j < |ws| :: x <= ws[j]
  }

  lemma PrefixOfSomeSnoc(x: string, ws: seq<string>)
    requires ws != []
    ensures IsPrefixOfSome(x, ws) <==> IsPrefixOfSome(x, ws[..|ws| - 1]) || x <= ws[|ws| - 1]
  {
  }

  /** Inserting the same word a second time changes no answer. */
  lemma InsertTwiceSameAnswers(ws: seq<string>, w: string, x: string)
    requires AllLowercase(ws) && IsLowercase(w) && IsLowercase(x)
    ensures AllLowercase(ws + [w]) && AllLowercase(ws + [w, w])
    ensures HasWord(Build(ws + [w, w]), x) == HasWord(Build(ws + [w]), x)
  {
    BuildHasExactlyListedWords(ws + [w, w], x);
    BuildHasExactlyListedWords(ws + [w], x);
    assert x in ws + [w, w] <==> x in ws + [w];
  }

  /** The order and multiplicity of the list do not matter: lists with the same members
      give dictionaries with the same words. */
  lemma BuildOrderIrrelevant(ws: seq<string>, vs: seq<string>, x: string)
    requires AllLowercase(ws) && AllLowercase(vs) && IsLowercase(x)
    requires forall w :: w in ws <==> w in vs
    ensures HasWord(Build(ws), x) == HasWord(Build(vs), x)
  {
    BuildHasExactlyListedWords(ws, x);
    BuildHasExactlyListedWords(vs, x);
  }

  /** translate_dictionary_to_word_map: 26 empty root slots; for every word and every
      byte of it, the step runs at the slot vector of the cursor (the root for the first
      byte), then the cursor moves to the slot just stepped on. */
  method TranslateDictionaryToWordMap(sourceDictionary: seq<string>) returns (dict: seq<Entry>)
    requires AllLowercase(sourceDictionary)
    ensures dict == Build(sourceDictionary)
    ensures Valid(dict)
    ensures forall x | IsLowercase(x) :: HasWord(dict, x) <==> x != [] && x in sourceDictionary
  {
    dict := Blank();
    var j := 0;
    while j < |sourceDictionary|
      invariant 0 <= j <= |sourceDictionary|
      invariant dict == Build(sourceDictionary[..j])
    {
      var word := sourceDictionary[j];
      ghost var before := dict;
      // the path from the root to the slot the cursor currently points at
      var currentLetter: string := [];
      var i := 0;
      while i < |word|
        invariant 0 <= i <= |word|
        invariant currentLetter == word[..i]
        invariant dict == InsertSteps(before, word, i)
      {
        var character := word[i];
        var curIsWord := i == |word| - 1;
        if i == 0 {
          dict := TouchSlot(dict, character, curIsWord);
        } else {
          match Walk(dict, currentLetter)
          case None =>
            assert false;
          case Some(_) =>
            dict := TouchAt(dict, currentLetter, character, curIsWord);
        }
        assert word[..i + 1] == word[..i] + [character];
        currentLetter := currentLetter + [character];
        i := i + 1;
      }
      assert sourceDictionary[..j + 1][..j] == sourceDictionary[..j];
      assert word[..|word|] == word;
      j := j + 1;
    }
    assert sourceDictionary[..j] == sourceDictionary;
    forall x | IsLowercase(x)
      ensures HasWord(dict, x) <==> x != [] && x in sourceDictionary
    {
      BuildHasExactlyListedWords(sourceDictionary, x);
    }
  }

  /** DebugDictionary::new: the dictionary of the six debugging words. */
  method New() returns (d: DebugDictionary)
    ensures d.words == Build(SourceDictionary)
    ensures forall x | IsLowercase(x) :: HasWord(d.words, x) <==> x in SourceDictionary
  {
    var words := TranslateDictionaryToWordMap(SourceDictionary);
    d := DebugDictionary(words);
  }

  /** In the debug list "a" comes after "ad", whose insertion already created the 'a'
      node with its flag false; "a" is a word of the finished dictionary all the same. */
  lemma ShortWordAfterLongerOne()
    ensures AllLowercase(SourceDictionary)
    ensures Walk(Build(SourceDictionary[..1]), "a").Some?
    ensures !HasWord(Build(SourceDictionary[..1]), "a")
    ensures HasWord(Build(SourceDictionary), "a")
  {
    var first := SourceDictionary[..1];
    assert first == ["ad"];
    assert "a" <= first[0];
    BuildNodesArePrefixes(first, "a");
    BuildHasExactlyListedWords(first, "a");
    BuildHasExactlyListedWords(SourceDictionary, "a");
  }
}
