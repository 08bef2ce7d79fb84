/** The part of the DOM the two page scripts touch: an element's class list
    (`classList.add`, `remove`, `toggle`, assigning `className`), its inline
    `style.display`, its id and its `data-*` attributes. */
module Dom {
  import opened Js

  /** The ASCII whitespace that separates the tokens of a class list. */
  predicate IsSpace(c: char)
  {
    c == ' ' || c == '\t' || c == '\n' || c == '\U{C}' || c == '\r'
  }

  /** A string `classList.add` and `classList.remove` accept: they throw on
      the empty string and on a string holding whitespace. */
  predicate ValidToken(t: string)
  {
    t != "" && forall k :: 0 <= k < |t| ==> !IsSpace(t[k])
  }

  /** `classList.add(name)` when `on`, `classList.remove(name)` otherwise:
      afterwards `name` is present exactly when `on` holds, and no other class
      has moved. */
  function SetFlag(classes: set<string>, name: string, on: bool): (r: set<string>)
    ensures name in r <==> on
    ensures forall c :: c != name ==> (c in r <==> c in classes)
  {
    if on then classes + {name} else classes - {name}
  }

  /** `classList.toggle(name)`: flips whether `name` is present and leaves
      every other class alone. */
  function Toggle(classes: set<string>, name: string): (r: set<string>)
    ensures name in r <==> name !in classes
    ensures forall c :: c != name ==> (c in r <==> c in classes)
  {
    SetFlag(classes, name, name !in classes)
  }

  /** Toggling twice restores the class list. */
  lemma ToggleTwice(classes: set<string>, name: string)
    ensures Toggle(Toggle(classes, name), name) == classes
  {
  }

  /** Of two settings of the same flag, only the later one is visible. */
  lemma SetFlagLastWins(classes: set<string>, name: string, first: bool, second: bool)
    ensures SetFlag(SetFlag(classes, name, first), name, second) == SetFlag(classes, name, second)
  {
  }

  /** The longest prefix of `s` without whitespace. */
  function Word(s: string): (w: string)
    ensures |w| <= |s| && w == s[..|w|]
    ensures forall k :: 0 <= k < |w| ==> !IsSpace(w[k])
    ensures |w| < |s| ==> IsSpace(s[|w|])
  {
    if s == [] || IsSpace(s[0]) then [] else [s[0]] + Word(s[1..])
  }

  /** The classes an element has after `el.className = s`: the
      whitespace-separated, non-empty pieces of `s`. */
  function Tokens(s: string): (r: set<string>)
    ensures forall t :: t in r ==> ValidToken(t)
    decreases |s|
  {
    if s == [] then {}
    else if IsSpace(s[0]) then Tokens(s[1..])
    else
      var w := Word(s);
      {w} + Tokens(s[|w|..])
  }

  /** `t` occurs in `s` at position `i` as a whole word: a valid token with
      whitespace or an end of `s` on either side. */
  ghost predicate WordAt(s: string, t: string, i: int)
  {
    && 0 <= i && i + |t| <= |s| && s[i..i + |t|] == t && ValidToken(t)
    && (i == 0 || IsSpace(s[i - 1]))
    && (i + |t| == |s| || IsSpace(s[i + |t|]))
  }

  /** The classes after `el.className = s` are exactly the whitespace-delimited
      words of `s`. */
  lemma {:induction false} TokensAreWords(s: string, t: string)
    ensures t in Tokens(s) <==> exists i :: WordAt(s, t, i)
    decreases |s|
  {
    if s != [] && IsSpace(s[0]) {
      TokensAreWords(s[1..], t);
      WordsAfterSpace(s, t);
    } else if s != [] {
      TokensAreWords(s[|Word(s)|..], t);
      WordsAfterWord(s, t);
    }
  }

  /** A whole word of a suffix `s[k..]` is a whole word of `s`, shifted by
      `k`, as long as its left boundary still holds in `s`. */
  lemma ShiftWord(s: string, k: int, t: string, j: int)
    requires 0 <= k <= |s| && 0 <= j
    requires j >= 1 || k == 0 || IsSpace(s[k - 1])
    ensures WordAt(s[k..], t, j) <==> WordAt(s, t, k + j)
  {
    if j + |t| <= |s| - k {
      assert s[k..][j..j + |t|] == s[k + j..k + j + |t|];
    }
  }

  /** Leading whitespace adds no word. */
  lemma WordsAfterSpace(s: string, t: string)
    requires s != [] && IsSpace(s[0])
    ensures (exists i :: WordAt(s, t, i)) <==> exists j :: WordAt(s[1..], t, j)
  {
    if exists i :: WordAt(s, t, i) {
      var i :| WordAt(s, t, i);
      ShiftWord(s, 1, t, i - 1);
    }
    if exists j :: WordAt(s[1..], t, j) {
      var j :| WordAt(s[1..], t, j);
      ShiftWord(s, 1, t, j);
    }
  }

  /** The words of a string that opens with a word: that word, and the
      words of what follows it. */
  lemma WordsAfterWord(s: string, t: string)
    requires s != [] && !IsSpace(s[0])
    ensures (exists i :: WordAt(s, t, i)) <==> t == Word(s) || exists j :: WordAt(s[|Word(s)|..], t, j)
  {
    var w := Word(s);
    var rest := s[|w|..];
    assert WordAt(s, w, 0);
    if exists j :: WordAt(rest, t, j) {
      var j :| WordAt(rest, t, j);
      ShiftWord(s, |w|, t, j);
    }
    if exists i :: WordAt(s, t, i) {
      var i :| WordAt(s, t, i);
      if i == 0 {
        WordIsMaximal(s, t);
      } else if i > |w| {
        ShiftWord(s, |w|, t, i - |w|);
      }
    }
  }

  /** The only whole word at the start of `s` is its longest space-free
      prefix. */
  lemma WordIsMaximal(s: string, t: string)
    requires WordAt(s, t, 0)
    ensures t == Word(s)
  {
  }

  /** A word that opens the string and is followed by whitespace is a
      class after the assignment. */
  lemma {:induction false} LeadingWordIsToken(w: string, rest: string)
    requires ValidToken(w)
    requires rest != [] && IsSpace(rest[0])
    ensures w in Tokens(w + rest)
  {
    WordOfPrefix(w, rest);
    assert (w + rest)[0] == w[0];
  }

  lemma {:induction false} WordOfPrefix(w: string, rest: string)
    requires forall k :: 0 <= k < |w| ==> !IsSpace(w[k])
    requires rest != [] && IsSpace(rest[0])
    ensures Word(w + rest) == w
    decreases |w|
  {
    if w == [] {
      assert w + rest == rest;
    } else {
      assert (w + rest)[0] == w[0];
      assert (w + rest)[1..] == w[1..] + rest;
      WordOfPrefix(w[1..], rest);
    }
  }

  /** An element of the page. `data` holds its `data-*` attributes under
      their dataset names (`data-section` is `data["section"]`). */
  class Element {
    const id: string
    const data: map<string, string>
    var classes: set<string>
    /** The inline `style.display`; "" while unset. */
    var display: string

    constructor (id: string, data: map<string, string>, classes: set<string>)
      ensures this.id == id && this.data == data
      ensures this.classes == classes && display == ""
    {
      this.id := id;
      this.data := data;
      this.classes := classes;
      display := "";
    }

    /** `getAttribute('data-' + name)`: the text, or `null` when missing. */
    function Attribute(name: string): (r: JsValue)
      ensures r.Str? <==> name in data
      ensures r.Str? ==> r.s == data[name]
      ensures r != Undefined
    {
      if name in data then Str(data[name]) else Null
    }

    /** `dataset[name]`: the text, or `undefined` when missing. */
    function Dataset(name: string): (r: JsValue)
      ensures r.Str? <==> name in data
      ensures r.Str? ==> r.s == data[name]
      ensures r != Null
    {
      if name in data then Str(data[name]) else Undefined
    }
  }
}
