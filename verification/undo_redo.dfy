/** The circular-array stack of CustomStackUndoRedo.cpp, which can be
    flipped so that push and pop act at the bottom end, and the text editor
    built on two such stacks with a five-step undo history. */
module CircularStack {
  import opened Common

  /** The stack's fields. `arr` is the buffer, so its length is `capacity`;
      `blank` is the value a default-constructed `T` has, which fills the
      fresh cells of a resized buffer. */
  datatype Stack<T> = Stack(
    arr: seq<T>,
    count: int,
    topIndex: int,
    bottomIndex: int,
    flipped: bool,
    blank: T)
  {
    function Capacity(): int
    {
      |arr|
    }
  }

  /** The representation invariant: a non-empty buffer, at most `capacity`
      elements starting at `bottomIndex`, and, when there are any, the top
      one at `topIndex`. */
  predicate Valid<T>(s: Stack<T>)
  {
    && 0 < |s.arr|
    && 0 <= s.count <= |s.arr|
    && 0 <= s.bottomIndex < |s.arr|
    && (s.count > 0 ==> s.topIndex == (s.bottomIndex + s.count - 1) % |s.arr|)
  }

  /** The buffer cell of the `i`-th element from the bottom. */
  function Slot<T>(s: Stack<T>, i: int): (k: int)
    requires Valid(s) && 0 <= i <= s.count
    ensures 0 <= k < |s.arr|
  {
    (s.bottomIndex + i) % |s.arr|
  }

  /** The stack's elements from the bottom to the top. */
  function Contents<T>(s: Stack<T>): (c: seq<T>)
    requires Valid(s)
    ensures |c| == s.count
  {
    seq(s.count, i requires 0 <= i < s.count => s.arr[Slot(s, i)])
  }

  /** A remainder below twice the modulus is one subtraction away. */
  lemma ModSmall(x: int, m: int)
    requires m > 0 && 0 <= x < 2 * m
    ensures x % m == if x < m then x else x - m
  {
    if x >= m {
      assert x == 1 * m + (x - m);
    }
  }

  /** Two element positions of a valid stack occupy different cells. */
  lemma SlotsDistinct<T>(s: Stack<T>, i: int, j: int)
    requires Valid(s) && 0 <= i < j <= s.count && j - i < |s.arr|
    ensures Slot(s, i) != Slot(s, j)
  {
    ModSmall(s.bottomIndex + i, |s.arr|);
    ModSmall(s.bottomIndex + j, |s.arr|);
  }

  /** The constructor `Stack(cap)`: an empty, unflipped stack. */
  function NewStack<T>(cap: int, blank: T): (s: Stack<T>)
    requires cap >= 1
    ensures Valid(s) && Contents(s) == [] && s.Capacity() == cap && !s.flipped
  {
    Stack(seq(cap, _ => blank), 0, -1, 0, false, blank)
  }

  function IsEmpty<T>(s: Stack<T>): bool
  {
    s.count == 0
  }

  function IsFull<T>(s: Stack<T>): bool
  {
    s.count == |s.arr|
  }

  /** `resize`: copy the elements bottom first into a buffer of `newCap`
      cells, which puts the bottom at 0 and the top at `count - 1`. */
  function Resize<T>(s: Stack<T>, newCap: int): (r: Stack<T>)
    requires Valid(s) && newCap >= 1 && newCap >= s.count
    ensures Valid(r) && Contents(r) == Contents(s)
    ensures r.Capacity() == newCap && r.flipped == s.flipped && r.bottomIndex == 0
  {
    var arr := seq(newCap, i requires 0 <= i < newCap => if i < s.count then s.arr[Slot(s, i)] else s.blank);
    var r := Stack(arr, s.count, s.count - 1, 0, s.flipped, s.blank);
    assert r.count > 0 ==> r.topIndex == (r.bottomIndex + r.count - 1) % newCap by {
      if r.count > 0 {
        ModSmall(r.count - 1, newCap);
      }
    }
    assert forall i | 0 <= i < r.count :: Slot(r, i) == i by {
      forall i | 0 <= i < r.count ensures Slot(r, i) == i {
        ModSmall(i, newCap);
      }
    }
    r
  }

  /** `push` as the repository writes it: grow a full buffer to twice its
      size; unflipped, write one cell past the top and move `topIndex` there;
      flipped, move `bottomIndex` one cell down and write there, leaving
      `topIndex` alone even when the stack was empty. */
  function PushAsWritten<T>(s: Stack<T>, element: T): Stack<T>
    requires Valid(s)
  {
    var s1 := if IsFull(s) then Resize(s, 2 * |s.arr|) else s;
    var cap := |s1.arr|;
    if !s1.flipped then
      var t := (s1.bottomIndex + s1.count) % cap;
      s1.(arr := s1.arr[t := element], topIndex := t, count := s1.count + 1)
    else
      var b := (s1.bottomIndex - 1 + cap) % cap;
      s1.(arr := s1.arr[b := element], bottomIndex := b, count := s1.count + 1)
  }

  /** A flipped push into a fresh stack leaves `topIndex` at -1 although the
      stack now holds one element, so the invariant is lost: after flipping
      back, `top` and `pop` would read the cell before the buffer. */
  lemma StaleTopScenario()
    ensures var s := PushAsWritten(Flip(NewStack(5, 0)), 7);
      && s.count == 1 && s.topIndex == -1 && !Valid(s)
  {
    var s0 := Flip(NewStack(5, 0));
    ModSmall(4, 5);
    assert (s0.bottomIndex - 1 + 5) % 5 == 4;
  }

  /** `push` with the flipped branch completed: a push into an empty stack
      also moves `topIndex` to the written cell, which is what every later
      unflipped `top` and `pop` relies on. */
  function Push<T>(s: Stack<T>, element: T): (r: Stack<T>)
    requires Valid(s)
    ensures Valid(r) && r.flipped == s.flipped
    ensures Contents(r) == if s.flipped then [element] + Contents(s) else Contents(s) + [element]
    ensures r.Capacity() == if IsFull(s) then 2 * s.Capacity() else s.Capacity()
  {
    var s1 := if IsFull(s) then Resize(s, 2 * |s.arr|) else s;
    var cap := |s1.arr|;
    if !s1.flipped then
      var t := (s1.bottomIndex + s1.count) % cap;
      var r := s1.(arr := s1.arr[t := element], topIndex := t, count := s1.count + 1);
      PushTopContents(s1, element);
      r
    else
      var b := (s1.bottomIndex - 1 + cap) % cap;
      var r := s1.(arr := s1.arr[b := element], bottomIndex := b, count := s1.count + 1,
                   topIndex := if s1.count == 0 then b else s1.topIndex);
      PushBottomContents(s1, element);
      r
  }

  /** The corrected push differs from the push as written only on a flipped
      empty stack; in particular it agrees on the never-flipped stacks the
      editor uses. */
  lemma PushAgrees<T>(s: Stack<T>, element: T)
    requires Valid(s)
    ensures !s.flipped || s.count > 0 ==> Push(s, element) == PushAsWritten(s, element)
  {
  }

  lemma PushTopContents<T>(s: Stack<T>, element: T)
    requires Valid(s) && s.count < |s.arr|
    ensures var t := (s.bottomIndex + s.count) % |s.arr|;
      var r := s.(arr := s.arr[t := element], topIndex := t, count := s.count + 1);
      Valid(r) && Contents(r) == Contents(s) + [element]
  {
    var cap := |s.arr|;
    var t := (s.bottomIndex + s.count) % cap;
    var r := s.(arr := s.arr[t := element], topIndex := t, count := s.count + 1);
    assert Valid(r);
    forall i | 0 <= i < s.count ensures Contents(r)[i] == Contents(s)[i] {
      SlotsDistinct(s, i, s.count);
    }
  }

  /** The cell of an element position without the remainder. */
  lemma SlotValue<T>(s: Stack<T>, i: int)
    requires Valid(s) && 0 <= i <= s.count
    ensures Slot(s, i) == if s.bottomIndex + i < |s.arr| then s.bottomIndex + i else s.bottomIndex + i - |s.arr|
  {
    ModSmall(s.bottomIndex + i, |s.arr|);
  }

  lemma PushBottomContents<T>(s: Stack<T>, element: T)
    requires Valid(s) && s.count < |s.arr|
    ensures var b := (s.bottomIndex - 1 + |s.arr|) % |s.arr|;
      var r := s.(arr := s.arr[b := element], bottomIndex := b, count := s.count + 1,
                  topIndex := if s.count == 0 then b else s.topIndex);
      Valid(r) && Contents(r) == [element] + Contents(s)
  {
    var cap := |s.arr|;
    var b := (s.bottomIndex - 1 + cap) % cap;
    ModSmall(s.bottomIndex - 1 + cap, cap);
    var r := s.(arr := s.arr[b := element], bottomIndex := b, count := s.count + 1,
                topIndex := if s.count == 0 then b else s.topIndex);
    assert Valid(r) by {
      ModSmall(b + s.count, cap);
      if s.count > 0 {
        ModSmall(s.bottomIndex + s.count - 1, cap);
      }
    }
    assert Contents(r)[0] == element by {
      SlotValue(r, 0);
    }
    forall i | 0 < i <= s.count ensures Contents(r)[i] == Contents(s)[i - 1] {
      SlotValue(r, i);
      SlotValue(s, i - 1);
    }
  }

  /** `pop`: None where the source throws (an empty stack). Otherwise the
      top element (the bottom one when flipped) and the stack without it,
      whose buffer shrinks to max(5, capacity / 2) once the stack is at
      most half full. */
  function Pop<T>(s: Stack<T>): (r: Option<(Stack<T>, T)>)
    requires Valid(s)
    ensures r.None? <==> s.count == 0
    ensures r.Some? ==> Valid(r.value.0) && r.value.0.flipped == s.flipped
    ensures r.Some? && !s.flipped ==>
      r.value.1 == Contents(s)[s.count - 1] && Contents(r.value.0) == Contents(s)[..s.count - 1]
    ensures r.Some? && s.flipped ==>
      r.value.1 == Contents(s)[0] && Contents(r.value.0) == Contents(s)[1..]
    ensures r.Some? ==> (r.value.0.Capacity() ==
      if 0 < s.count - 1 <= s.Capacity() / 2 then (if 5 < s.Capacity() / 2 then s.Capacity() / 2 else 5)
      else s.Capacity())
  {
    if IsEmpty(s) then None
    else
      var cap := |s.arr|;
      var (s1, element) :=
        if !s.flipped then
          (s.(topIndex := (s.topIndex - 1 + cap) % cap, count := s.count - 1), s.arr[s.topIndex])
        else
          (s.(bottomIndex := (s.bottomIndex + 1) % cap, count := s.count - 1), s.arr[s.bottomIndex]);
      PopContents(s);
      var s2 := if s1.count > 0 && s1.count <= cap / 2 then Resize(s1, if 5 < cap / 2 then cap / 2 else 5) else s1;
      Some((s2, element))
  }

  lemma PopContents<T>(s: Stack<T>)
    requires Valid(s) && s.count > 0
    ensures var cap := |s.arr|;
      var r := s.(topIndex := (s.topIndex - 1 + cap) % cap, count := s.count - 1);
      Valid(r) && Contents(r) == Contents(s)[..s.count - 1] && s.arr[s.topIndex] == Contents(s)[s.count - 1]
    ensures var cap := |s.arr|;
      var r := s.(bottomIndex := (s.bottomIndex + 1) % cap, count := s.count - 1);
      Valid(r) && Contents(r) == Contents(s)[1..] && s.arr[s.bottomIndex] == Contents(s)[0]
  {
    PopTop(s);
    PopBottom(s);
  }

  lemma PopTop<T>(s: Stack<T>)
    requires Valid(s) && s.count > 0
    ensures var cap := |s.arr|;
      var r := s.(topIndex := (s.topIndex - 1 + cap) % cap, count := s.count - 1);
      Valid(r) && Contents(r) == Contents(s)[..s.count - 1] && s.arr[s.topIndex] == Contents(s)[s.count - 1]
  {
    var cap := |s.arr|;
    SlotValue(s, s.count - 1);
    var r := s.(topIndex := (s.topIndex - 1 + cap) % cap, count := s.count - 1);
    assert Valid(r) by {
      if s.count > 1 {
        SlotValue(s, s.count - 2);
        ModSmall(s.topIndex - 1 + cap, cap);
      }
    }
  }

  lemma PopBottom<T>(s: Stack<T>)
    requires Valid(s) && s.count > 0
    ensures var cap := |s.arr|;
      var r := s.(bottomIndex := (s.bottomIndex + 1) % cap, count := s.count - 1);
      Valid(r) && Contents(r) == Contents(s)[1..] && s.arr[s.bottomIndex] == Contents(s)[0]
  {
    var cap := |s.arr|;
    assert s.arr[s.bottomIndex] == Contents(s)[0] by {
      SlotValue(s, 0);
    }
    var b' := (s.bottomIndex + 1) % cap;
    assert b' == if s.bottomIndex + 1 < cap then s.bottomIndex + 1 else 0 by {
      ModSmall(s.bottomIndex + 1, cap);
    }
    var r := s.(bottomIndex := b', count := s.count - 1);
    assert Valid(r) by {
      if s.count > 1 {
        SlotValue(s, s.count - 1);
        ModSmall(b' + s.count - 2, cap);
      }
    }
    PopBottomSlots(s, r);
  }

  lemma PopBottomSlots<T>(s: Stack<T>, r: Stack<T>)
    requires Valid(s) && Valid(r) && s.count > 0 && r == s.(bottomIndex := r.bottomIndex, count := s.count - 1)
    requires r.bottomIndex == if s.bottomIndex + 1 < |s.arr| then s.bottomIndex + 1 else 0
    ensures Contents(r) == Contents(s)[1..]
  {
    forall i | 0 <= i < s.count - 1 ensures Slot(r, i) == Slot(s, i + 1) {
      SlotValue(r, i);
      SlotValue(s, i + 1);
    }
  }

  /** `top`: None where the source throws, else the top element (the bottom
      one when flipped). */
  function Top<T>(s: Stack<T>): (r: Option<T>)
    requires Valid(s)
    ensures r.None? <==> s.count == 0
    ensures r.Some? ==> r.value == if s.flipped then Contents(s)[0] else Contents(s)[s.count - 1]
  {
    if IsEmpty(s) then None
    else
      PopContents(s);
      Some(if s.flipped then s.arr[s.bottomIndex] else s.arr[s.topIndex])
  }

  /** `flipStack`: swap the end that push and pop act at. */
  function Flip<T>(s: Stack<T>): (r: Stack<T>)
    ensures Valid(s) ==> Valid(r) && Contents(r) == Contents(s)
    ensures r.flipped == !s.flipped
  {
    s.(flipped := !s.flipped)
  }

  /** A pop right after a push returns the pushed element and gives back the
      contents, at either end. */
  lemma PushPop<T>(s: Stack<T>, element: T)
    requires Valid(s)
    ensures Pop(Push(s, element)).Some?
    ensures Pop(Push(s, element)).value.1 == element
    ensures Contents(Pop(Push(s, element)).value.0) == Contents(s)
  {
    var c := Contents(s);
    if s.flipped {
      assert ([element] + c)[1..] == c;
    } else {
      assert (c + [element])[..|c|] == c;
    }
  }

  /** The menu's flip demonstration: push 1..5, flip, and pop until empty,
      which yields 1, 2, 3, 4, 5. */
  lemma FlipDemo()
    ensures var s := Flip(Push(Push(Push(Push(Push(NewStack(5, 0), 1), 2), 3), 4), 5));
      && Contents(s) == [1, 2, 3, 4, 5]
      && Pop(s).value.1 == 1
      && Pop(Pop(s).value.0).value.1 == 2
      && Pop(Pop(Pop(s).value.0).value.0).value.1 == 3
      && Pop(Pop(Pop(Pop(s).value.0).value.0).value.0).value.1 == 4
      && Pop(Pop(Pop(Pop(Pop(s).value.0).value.0).value.0).value.0).value.1 == 5
  {
    var s := Flip(Push(Push(Push(Push(Push(NewStack(5, 0), 1), 2), 3), 4), 5));
    assert Contents(s) == [1, 2, 3, 4, 5];
    var s1 := Pop(s).value.0;
    assert Contents(s1) == [2, 3, 4, 5];
    var s2 := Pop(s1).value.0;
    assert Contents(s2) == [3, 4, 5];
    var s3 := Pop(s2).value.0;
    assert Contents(s3) == [4, 5];
    var s4 := Pop(s3).value.0;
    assert Contents(s4) == [5];
  }
}

/** `MyString`: the text, an undo stack and a redo stack of earlier texts. */
module Editor {
  import opened Common
  import opened CircularStack

  /** `MAX_HISTORY`. */
  const MaxHistory := 5

  datatype Editor = Editor(current: string, undoStack: Stack<string>, redoStack: Stack<string>)

  /** What every reachable editor satisfies: both stacks valid and never
      flipped, and at most five snapshots between them. */
  predicate Inv(e: Editor)
  {
    && Valid(e.undoStack) && Valid(e.redoStack)
    && !e.undoStack.flipped && !e.redoStack.flipped
    && e.undoStack.count + e.redoStack.count <= MaxHistory
  }

  /** The default constructor: empty text, two empty stacks of capacity 5. */
  function NewEditor(): (e: Editor)
    ensures Inv(e) && e.current == "" && Contents(e.undoStack) == [] && Contents(e.redoStack) == []
  {
    Editor("", NewStack(5, ""), NewStack(5, ""))
  }

  /** The `while (!redoStack.isEmpty()) redoStack.pop()` loop. */
  function PopAll<T>(s: Stack<T>): (r: Stack<T>)
    requires Valid(s)
    ensures Valid(r) && r.count == 0 && r.flipped == s.flipped
    decreases s.count
  {
    if IsEmpty(s) then s else PopAll(Pop(s).value.0)
  }

  /** The text after appending `word`: separated by one space unless the
      text was empty. */
  function Appended(current: string, word: string): string
  {
    current + (if current == [] then "" else " ") + word
  }

  /** `addWord`: with five snapshots already kept, pop one (the most recent);
      push the current text; append the word; clear the redo stack. */
  function AddWord(e: Editor, word: string): (r: Editor)
    requires Inv(e)
    ensures Inv(r)
    ensures r.current == Appended(e.current, word)
    ensures Contents(r.redoStack) == []
    ensures e.undoStack.count < MaxHistory ==> Contents(r.undoStack) == Contents(e.undoStack) + [e.current]
    ensures e.undoStack.count == MaxHistory ==>
      Contents(r.undoStack) == Contents(e.undoStack)[..MaxHistory - 1] + [e.current]
  {
    var u := if e.undoStack.count == MaxHistory then Pop(e.undoStack).value.0 else e.undoStack;
    Editor(Appended(e.current, word), Push(u, e.current), PopAll(e.redoStack))
  }

  /** `undo`: nothing to do on an empty undo stack; otherwise save the text
      for redo and go back to the last snapshot. */
  function Undo(e: Editor): (r: Editor)
    requires Inv(e)
    ensures Inv(r)
    ensures IsEmpty(e.undoStack) ==> r == e
    ensures !IsEmpty(e.undoStack) ==>
      && r.current == Contents(e.undoStack)[e.undoStack.count - 1]
      && Contents(r.undoStack) == Contents(e.undoStack)[..e.undoStack.count - 1]
      && Contents(r.redoStack) == Contents(e.redoStack) + [e.current]
  {
    if IsEmpty(e.undoStack) then e
    else
      var redo := Push(e.redoStack, e.current);
      var (undo, text) := Pop(e.undoStack).value;
      Editor(text, undo, redo)
  }

  /** `redo`: the mirror image of `undo`. */
  function Redo(e: Editor): (r: Editor)
    requires Inv(e)
    ensures Inv(r)
    ensures IsEmpty(e.redoStack) ==> r == e
    ensures !IsEmpty(e.redoStack) ==>
      && r.current == Contents(e.redoStack)[e.redoStack.count - 1]
      && Contents(r.redoStack) == Contents(e.redoStack)[..e.redoStack.count - 1]
      && Contents(r.undoStack) == Contents(e.undoStack) + [e.current]
  {
    if IsEmpty(e.redoStack) then e
    else
      var undo := Push(e.undoStack, e.current);
      var (redo, text) := Pop(e.redoStack).value;
      Editor(text, undo, redo)
  }

  /** Undo followed by redo gives back the text and the contents of both
      stacks. */
  lemma UndoRedo(e: Editor)
    requires Inv(e) && !IsEmpty(e.undoStack)
    ensures Redo(Undo(e)).current == e.current
    ensures Contents(Redo(Undo(e)).undoStack) == Contents(e.undoStack)
    ensures Contents(Redo(Undo(e)).redoStack) == Contents(e.redoStack)
  {
    var u := Contents(e.undoStack);
    var e1 := Undo(e);
    assert u[..|u| - 1] + [u[|u| - 1]] == u;
    assert (Contents(e.redoStack) + [e.current])[..|Contents(e.redoStack)|] == Contents(e.redoStack);
  }

  /** Adding a word and undoing it gives back the text. */
  lemma AddWordUndo(e: Editor, word: string)
    requires Inv(e)
    ensures Undo(AddWord(e, word)).current == e.current
  {
  }

  /** Adding six words keeps only five snapshots, and the one dropped at the
      sixth word is the newest ("a b c d"), not the oldest (the empty text). */
  lemma HistoryDropsNewest()
    ensures var e := AddWord(AddWord(AddWord(AddWord(AddWord(AddWord(NewEditor(), "a"), "b"), "c"), "d"), "e"), "f");
      && Contents(e.undoStack) == ["", "a", "a b", "a b c", "a b c d e"]
  {
    var e3 := FirstThreeWords();
    var e5 := FourthAndFifthWords(e3);
    var e6 := AddWord(e5, "f");
    assert ["", "a", "a b", "a b c"] + ["a b c d e"] == ["", "a", "a b", "a b c", "a b c d e"];
  }

  /** The editor after the words "a", "b" and "c". */
  lemma FirstThreeWords() returns (e3: Editor)
    ensures e3 == AddWord(AddWord(AddWord(NewEditor(), "a"), "b"), "c") && Inv(e3)
    ensures e3.current == "a b c" && Contents(e3.undoStack) == ["", "a", "a b"]
  {
    assert [""] + ["a"] == ["", "a"] && ["", "a"] + ["a b"] == ["", "a", "a b"];
    var e1 := AddWord(NewEditor(), "a");
    assert e1.current == "a" && Contents(e1.undoStack) == [""];
    var e2 := AddWord(e1, "b");
    assert e2.current == "a b" && Contents(e2.undoStack) == ["", "a"];
    e3 := AddWord(e2, "c");
  }

  /** Then "d" and "e": the undo stack is full. */
  lemma FourthAndFifthWords(e3: Editor) returns (e5: Editor)
    requires Inv(e3) && e3.current == "a b c" && Contents(e3.undoStack) == ["", "a", "a b"]
    ensures e5 == AddWord(AddWord(e3, "d"), "e") && Inv(e5)
    ensures e5.undoStack.count == MaxHistory
    ensures Contents(e5.undoStack)[..MaxHistory - 1] == ["", "a", "a b", "a b c"] && e5.current == "a b c d e"
  {
    var e4 := AddWord(e3, "d");
    assert ["", "a", "a b"] + ["a b c"] == ["", "a", "a b", "a b c"];
    assert e4.current == "a b c d" && Contents(e4.undoStack) == ["", "a", "a b", "a b c"];
    e5 := AddWord(e4, "e");
    assert Contents(e5.undoStack) == ["", "a", "a b", "a b c"] + ["a b c d"];
  }
}
