/**
  The vim key interpreter (`handleVimKey`): a total, stateless map from the
  name of a pressed key to the action it stands for, or to no action.
*/
module Vim {
  import opened Wrappers

  /** The actions a key can stand for. `Digit` carries the key that was pressed. */
  datatype VimAction =
    | MoveCursor(dx: int, dy: int)
    | Reveal
    | Flag
    | Smart
    | Digit(value: string)
    | Zero
    | GoTop
    | GoBottom
    | StartRow
    | NextUnrevealed
    | PrevUnrevealed
    | NextUnrevealedVertical
    | PrevUnrevealedVertical
    | StartSearch
    | NextMatch
    | PrevMatch

  /** The test `/^[1-9]$/`: the key is a single character from '1' to '9'. */
  predicate IsDigitKey(key: string) {
    |key| == 1 && '1' <= key[0] <= '9'
  }

  /** The keys named in the `switch`. */
  const NamedKeys: set<string> := {
    "0", "_", "/", "n", "N",
    "h", "ArrowLeft", "j", "ArrowDown", "k", "ArrowUp", "l", "ArrowRight",
    "w", "b", "{", "}", "i", "Enter", " ", "f", "$", "G", "g"
  }

  /**
    The inverse table: the keys that produce `action`. A digit action is
    produced by the digit key it carries, `MoveCursor` by the arrow and
    `hjkl` keys for unit steps and by `$` for the jump to the end of the row.
  */
  function KeysFor(action: VimAction): set<string> {
    match action
    case Digit(v) => if IsDigitKey(v) then {v} else {}
    case Zero => {"0"}
    case StartRow => {"_"}
    case StartSearch => {"/"}
    case NextMatch => {"n"}
    case PrevMatch => {"N"}
    case MoveCursor(dx, dy) =>
      if (dx, dy) == (-1, 0) then {"h", "ArrowLeft"}
      else if (dx, dy) == (0, 1) then {"j", "ArrowDown"}
      else if (dx, dy) == (0, -1) then {"k", "ArrowUp"}
      else if (dx, dy) == (1, 0) then {"l", "ArrowRight"}
      else if (dx, dy) == (999, 0) then {"$"}
      else {}
    case NextUnrevealed => {"w"}
    case PrevUnrevealed => {"b"}
    case PrevUnrevealedVertical => {"{"}
    case NextUnrevealedVertical => {"}"}
    case Reveal => {"i", "Enter"}
    case Smart => {" "}
    case Flag => {"f"}
    case GoBottom => {"G"}
    case GoTop => {"g"}
  }

  /**
    `handleVimKey(key)`. A key yields an action exactly when it is a digit key
    or one of the named keys, and then the table lists the key under that
    action; a digit key yields `Digit` with the key itself.
  */
  function HandleVimKey(key: string): (action: Option<VimAction>)
    ensures action.Some? <==> IsDigitKey(key) || key in NamedKeys
    ensures action.Some? ==> key in KeysFor(action.value)
    ensures IsDigitKey(key) ==> action == Some(Digit(key))
  {
    if IsDigitKey(key) then Some(Digit(key))
    else match key
      case "0" => Some(Zero)
      case "_" => Some(StartRow)
      case "/" => Some(StartSearch)
      case "n" => Some(NextMatch)
      case "N" => Some(PrevMatch)
      case "h" => Some(MoveCursor(-1, 0))
      case "ArrowLeft" => Some(MoveCursor(-1, 0))
      case "j" => Some(MoveCursor(0, 1))
      case "ArrowDown" => Some(MoveCursor(0, 1))
      case "k" => Some(MoveCursor(0, -1))
      case "ArrowUp" => Some(MoveCursor(0, -1))
      case "l" => Some(MoveCursor(1, 0))
      case "ArrowRight" => Some(MoveCursor(1, 0))
      case "w" => Some(NextUnrevealed)
      case "b" => Some(PrevUnrevealed)
      case "{" => Some(PrevUnrevealedVertical)
      case "}" => Some(NextUnrevealedVertical)
      case "i" => Some(Reveal)
      case "Enter" => Some(Reveal)
      case " " => Some(Smart)
      case "f" => Some(Flag)
      case "$" => Some(MoveCursor(999, 0))
      case "G" => Some(GoBottom)
      case "g" => Some(GoTop)
      case _ => None
  }

  /** No key is listed under two different actions. */
  lemma KeysForDisjoint(a: VimAction, a': VimAction, key: string)
    requires key in KeysFor(a) && key in KeysFor(a')
    ensures a == a'
  {
  }

  /** The table is exactly the inverse of the interpreter. */
  lemma HandleVimKeyInverse(key: string, a: VimAction)
    ensures HandleVimKey(key) == Some(a) <==> key in KeysFor(a)
  {
    if key in KeysFor(a) {
      assert IsDigitKey(key) || key in NamedKeys;
      KeysForDisjoint(a, HandleVimKey(key).value, key);
    }
  }

  /**
    The digit keys are the nine strings "1" to "9"; "0" is not one of them:
    it yields `Zero`, and never a `Digit` action.
  */
  lemma DigitKeys(key: string)
    ensures IsDigitKey(key) <==> key in {"1", "2", "3", "4", "5", "6", "7", "8", "9"}
    ensures !IsDigitKey("0") && HandleVimKey("0") == Some(Zero)
    ensures forall v :: HandleVimKey("0") != Some(Digit(v))
  {
    if IsDigitKey(key) {
      assert key == [key[0]];
    }
  }

  /** `$` is the only key that moves the cursor by something other than a unit step. */
  lemma DollarIsOnlyLongMove(key: string)
    ensures (HandleVimKey(key).Some? && HandleVimKey(key).value.MoveCursor? &&
             !(HandleVimKey(key).value.dx * HandleVimKey(key).value.dx +
               HandleVimKey(key).value.dy * HandleVimKey(key).value.dy == 1))
            <==> key == "$"
  {
  }
}
