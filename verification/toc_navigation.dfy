/** Keyboard interpretation for the table-of-contents menu: a key, the index
    of the focused entry and the number of entries give one menu action. */
module TocNavigation {

  datatype MenuAction = Move(index: int) | Select | Close | Noop

  /** JavaScript's `%`: the remainder takes the sign of the dividend. */
  function JsRem(a: int, b: int): (r: int)
    requires b > 0
    ensures (r - a) % b == 0
    ensures -b < r < b
    ensures a >= 0 ==> r >= 0
    ensures a <= 0 ==> r <= 0
  {
    if a >= 0 then
      MultipleDifference(a, a % b, b);
      a % b
    else
      MultipleDifference(-a, (-a) % b, b);
      assert (-((-a) % b) - a) == -((-a) % b - (-a));
      NegatedMultiple((-a) % b - (-a), b);
      -((-a) % b)
  }

  /** The Euclidean remainder differs from its dividend by a multiple. */
  lemma MultipleDifference(a: int, r: int, b: int)
    requires b > 0 && r == a % b
    ensures (r - a) % b == 0
  {
    var q := a / b;
    assert a == q * b + r;
    assert r - a == (-q) * b;
    MultipleMod(-q, b);
  }

  lemma NegatedMultiple(x: int, b: int)
    requires b > 0 && x % b == 0
    ensures (-x) % b == 0
  {
    var q := x / b;
    assert x == q * b;
    assert -x == (-q) * b;
    MultipleMod(-q, b);
  }

  lemma MultipleMod(k: int, b: int)
    requires b > 0
    ensures (k * b) % b == 0
  {
    var q := (k * b) / b;
    var r := (k * b) % b;
    assert k * b == q * b + r;
    assert (k - q) * b == r;
    // A non-zero multiple of b cannot lie in [0, b).
    if k - q >= 1 {
      assert false;
    } else if k - q <= -1 {
      assert false;
    }
  }

  function InterpretMenuKey(key: string, currentIndex: int, total: int): (a: MenuAction)
    // An empty (or negative-size) menu ignores every key.
    ensures total <= 0 ==> a == Noop
    // Down steps to the next entry, from the last entry back to the first;
    // with nothing focused (-1) it moves to the first entry.
    ensures total > 0 && key == "ArrowDown" && -1 <= currentIndex < total ==>
      a == Move(if currentIndex == total - 1 then 0 else currentIndex + 1)
    // Up steps to the previous entry, from the first entry to the last.
    ensures total > 0 && key == "ArrowUp" ==>
      a == Move(if currentIndex <= 0 then total - 1 else currentIndex - 1)
    ensures total > 0 && key == "Home" ==> a == Move(0)
    ensures total > 0 && key == "End" ==> a == Move(total - 1)
    ensures total > 0 && (key == "Enter" || key == " ") ==> a == Select
    ensures total > 0 && key == "Escape" ==> a == Close
    ensures total > 0 && key !in KnownKeys ==> a == Noop
    // From a valid index every move stays inside the menu.
    ensures 0 <= currentIndex < total && a.Move? ==> 0 <= a.index < total
  {
    if total <= 0 then Noop
    else if key == "ArrowDown" then Move(JsRem(currentIndex + 1, total))
    else if key == "ArrowUp" then Move(if currentIndex - 1 < 0 then total - 1 else currentIndex - 1)
    else if key == "Home" then Move(0)
    else if key == "End" then Move(total - 1)
    else if key == "Enter" || key == " " then Select
    else if key == "Escape" then Close
    else Noop
  }

  const KnownKeys: set<string> := {"ArrowDown", "ArrowUp", "Home", "End", "Enter", " ", "Escape"}

  /** Down from an index before the menu (JavaScript's remainder keeps the
      sign) never lands past the first entry. */
  lemma DownFromNegativeIndex(currentIndex: int, total: int)
    requires total > 0 && currentIndex < -1
    ensures InterpretMenuKey("ArrowDown", currentIndex, total).index <= 0
    ensures (InterpretMenuKey("ArrowDown", currentIndex, total).index - (currentIndex + 1)) % total == 0
  {
  }

  /** Down then Up, and Up then Down, return to the starting entry. */
  lemma DownThenUp(i: int, total: int)
    requires 0 <= i < total
    ensures InterpretMenuKey("ArrowUp", InterpretMenuKey("ArrowDown", i, total).index, total) == Move(i)
  {
  }

  lemma UpThenDown(i: int, total: int)
    requires 0 <= i < total
    ensures InterpretMenuKey("ArrowDown", InterpretMenuKey("ArrowUp", i, total).index, total) == Move(i)
  {
  }

  /** The keys the accessibility suite presses and the actions it expects. */
  lemma MenuExamples()
    ensures InterpretMenuKey("ArrowDown", 0, 3) == Move(1)
    ensures InterpretMenuKey("ArrowUp", 0, 3) == Move(2)
    ensures InterpretMenuKey("Home", 2, 3) == Move(0)
    ensures InterpretMenuKey("End", 1, 4) == Move(3)
    ensures InterpretMenuKey("Enter", 2, 4) == Select
    ensures InterpretMenuKey("Escape", 2, 4) == Close
    ensures InterpretMenuKey("KeyZ", 0, 4) == Noop
  {
  }
}
