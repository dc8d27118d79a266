/** The pure helpers of the category selector: toggling a category in the
    selection, dropping a deleted one, recognising the default categories,
    checking a new name, and picking a readable text colour. */
module CategorySelector {
  import opened Wrappers
  import opened Text
  import opened NoteTypes

  // ---------------------------------------------------------------------
  // The selection
  // ---------------------------------------------------------------------

  /** `selected.filter(x => x !== id)`: the selection without any occurrence
      of `id`, every other entry kept in order. The selection after a
      category is deleted, and after a selected category is toggled. */
  function Remove(selected: seq<CategoryId>, id: CategoryId): (r: seq<CategoryId>)
    ensures id !in r
    decreases |selected|
  {
    if selected == [] then []
    else (if selected[0] == id then [] else [selected[0]]) + Remove(selected[1..], id)
  }

  /** A selection without `id` is left as it is. */
  lemma {:induction false} RemoveAbsent(selected: seq<CategoryId>, id: CategoryId)
    requires id !in selected
    ensures Remove(selected, id) == selected
    decreases |selected|
  {
    if selected != [] {
      assert selected == [selected[0]] + selected[1..];
      RemoveAbsent(selected[1..], id);
    }
  }

  /** Every id other than `id` keeps its membership. */
  lemma {:induction false} RemoveKeepsOthers(selected: seq<CategoryId>, id: CategoryId)
    ensures forall x :: x != id ==> (x in Remove(selected, id) <==> x in selected)
    decreases |selected|
  {
    if selected != [] {
      assert selected == [selected[0]] + selected[1..];
      RemoveKeepsOthers(selected[1..], id);
    }
  }

  /** Every occurrence of `id` is dropped, and nothing else. */
  lemma {:induction false} RemoveCount(selected: seq<CategoryId>, id: CategoryId)
    ensures |Remove(selected, id)| == |selected| - multiset(selected)[id]
    decreases |selected|
  {
    if selected != [] {
      assert selected == [selected[0]] + selected[1..];
      RemoveCount(selected[1..], id);
    }
  }

  /** Removing distributes over concatenation: what is left of the selection
      keeps its relative order. */
  lemma {:induction false} RemoveAppend(a: seq<CategoryId>, b: seq<CategoryId>, id: CategoryId)
    ensures Remove(a + b, id) == Remove(a, id) + Remove(b, id)
    decreases |a|
  {
    if a == [] {
      assert a + b == b;
    } else {
      var ab := a + b;
      assert ab != [] && ab[0] == a[0] && ab[1..] == a[1..] + b;
      RemoveAppend(a[1..], b, id);
      if a[0] == id {
        calc {
          Remove(ab, id);
          Remove(a[1..] + b, id);
          Remove(a[1..], id) + Remove(b, id);
          Remove(a, id) + Remove(b, id);
        }
      } else {
        calc {
          Remove(ab, id);
          [a[0]] + Remove(a[1..] + b, id);
          [a[0]] + (Remove(a[1..], id) + Remove(b, id));
          ([a[0]] + Remove(a[1..], id)) + Remove(b, id);
          Remove(a, id) + Remove(b, id);
        }
      }
    }
  }

  /** `toggleCategory`: a selected id is removed, every occurrence of it; an
      unselected one is appended at the end. */
  function Toggle(selected: seq<CategoryId>, id: CategoryId): (r: seq<CategoryId>)
    ensures id in selected ==> r == Remove(selected, id)
    ensures id !in selected ==> r == selected + [id]
    ensures id in r <==> id !in selected
    ensures forall x :: x != id ==> (x in r <==> x in selected)
  {
    RemoveKeepsOthers(selected, id);
    if id in selected then Remove(selected, id) else selected + [id]
  }

  /** Toggling touches only the toggled id: once it is filtered out, the
      selection before and after are the same sequence. */
  lemma ToggleKeepsOthers(selected: seq<CategoryId>, id: CategoryId)
    ensures Remove(Toggle(selected, id), id) == Remove(selected, id)
  {
    if id !in selected {
      RemoveAppend(selected, [id], id);
      assert Remove([id], id) == [];
    } else {
      RemoveAbsent(Remove(selected, id), id);
    }
  }

  /** Toggling an unselected id twice restores the selection exactly. */
  lemma ToggleTwice(selected: seq<CategoryId>, id: CategoryId)
    requires id !in selected
    ensures Toggle(Toggle(selected, id), id) == selected
  {
    RemoveAppend(selected, [id], id);
    RemoveAbsent(selected, id);
    assert Remove([id], id) == [];
    assert selected + [] == selected;
  }

  // ---------------------------------------------------------------------
  // Default categories
  // ---------------------------------------------------------------------

  /** `isDefaultCategory`: the name is one of the default names, exactly,
      case included. */
  function IsDefaultCategory(name: string): (r: bool)
    ensures r <==> name == "Work" || name == "Personal" || name == "Study"
                   || name == "Important" || name == "Ideas"
  {
    assert |DefaultCategories| == 5;
    assert DefaultCategories[0].name == "Work" && DefaultCategories[1].name == "Personal"
           && DefaultCategories[2].name == "Study" && DefaultCategories[3].name == "Important"
           && DefaultCategories[4].name == "Ideas";
    exists i :: 0 <= i < |DefaultCategories| && DefaultCategories[i].name == name
  }

  /** "Work" is a default; "work" is not, since the match is case-sensitive. */
  lemma DefaultIsCaseSensitive()
    ensures IsDefaultCategory("Work") && !IsDefaultCategory("work")
  {
    assert DefaultCategories[0].name == "Work";
    forall i | 0 <= i < |DefaultCategories| ensures DefaultCategories[i].name != "work" {
      assert DefaultCategories[i].name[0] != 'w';
    }
  }

  /** The delete control is shown when deleting is allowed and the category
      is not a default one. */
  function ShowsDeleteControl(allowDelete: bool, name: string): (r: bool)
    ensures r <==> allowDelete && !(name == "Work" || name == "Personal" || name == "Study"
                                   || name == "Important" || name == "Ideas")
    ensures forall i :: 0 <= i < |DefaultCategories| && name == DefaultCategories[i].name ==> !r
  {
    allowDelete && !IsDefaultCategory(name)
  }

  // ---------------------------------------------------------------------
  // Creating a category
  // ---------------------------------------------------------------------

  /** The create handler's guard: nothing for a name that is empty or all
      white space, otherwise the input to create, with the name trimmed. */
  function NewCategoryInput(name: string, color: string): (r: Option<CreateCategoryInput>)
    ensures r.None? <==> AllSpace(name)
    ensures r.Some? ==> r.value.color == color && r.value.name != []
                        && !IsSpace(r.value.name[0]) && !IsSpace(r.value.name[|r.value.name| - 1])
                        && r.value.name == Trim(name)
  {
    if Trim(name) == [] then None else Some(CreateCategoryInput(Trim(name), color))
  }

  /** Typing the stored name again creates the same input. */
  lemma NewCategoryInputStable(name: string, color: string)
    requires NewCategoryInput(name, color).Some?
    ensures NewCategoryInput(NewCategoryInput(name, color).value.name, color)
            == NewCategoryInput(name, color)
  {
    TrimIdempotent(name);
  }

  // ---------------------------------------------------------------------
  // Text colour
  // ---------------------------------------------------------------------

  predicate IsHexDigit(c: char) {
    '0' <= c <= '9' || 'a' <= c <= 'f' || 'A' <= c <= 'F'
  }

  /** The value of one hexadecimal digit, as `parseInt(_, 16)` reads it. */
  function HexValue(c: char): (v: nat)
    requires IsHexDigit(c)
    ensures v < 16
  {
    if '0' <= c <= '9' then c as int - '0' as int
    else if 'a' <= c <= 'f' then c as int - 'a' as int + 10
    else c as int - 'A' as int + 10
  }

  /** A colour written `#RRGGBB`. */
  predicate IsHexColor(color: string) {
    |color| == 7 && color[0] == '#' && forall i :: 1 <= i < 7 ==> IsHexDigit(color[i])
  }

  /** Channel `k` (0 red, 1 green, 2 blue): two hexadecimal digits. */
  function Channel(color: string, k: nat): (v: nat)
    requires IsHexColor(color) && k < 3
    ensures v <= 255
  {
    16 * HexValue(color[1 + 2 * k]) + HexValue(color[2 + 2 * k])
  }

  /** The weighted brightness of the source, `(299 r + 587 g + 114 b) / 1000`
      (the ITU-R BT.601 luma weights), above 128. Stated in integers, it is
      `299 r + 587 g + 114 b > 128000`. */
  predicate IsLight(r: nat, g: nat, b: nat)
    ensures IsLight(r, g, b) <==> 299 * r + 587 * g + 114 * b > 128000
  {
    ((r * 299 + g * 587 + b * 114) as real) / 1000.0 > 128.0
  }

  /** `isLightColor` on a well-formed `#RRGGBB`. Green weighs most: a green
      channel of 0xDB or more makes any colour light, and one of 0x26 or less
      makes any colour dark. */
  function IsLightColor(color: string): (light: bool)
    requires IsHexColor(color)
    ensures light <==> 299 * Channel(color, 0) + 587 * Channel(color, 1) + 114 * Channel(color, 2) > 128000
    ensures Channel(color, 1) >= 0xDB ==> light
    ensures Channel(color, 1) <= 0x26 ==> !light
  {
    IsLight(Channel(color, 0), Channel(color, 1), Channel(color, 2))
  }

  /** The text colour the selector puts on a category's background: black
      on a light one, white on a dark one. */
  function TextColor(background: string): (t: string)
    requires IsHexColor(background)
    ensures t == "#000000" <==> IsLightColor(background)
    ensures t == "#FFFFFF" <==> !IsLightColor(background)
  {
    if IsLightColor(background) then "#000000" else "#FFFFFF"
  }

  /** White is light and black is dark. */
  lemma WhiteLightBlackDark()
    ensures IsHexColor("#FFFFFF") && IsLightColor("#FFFFFF")
    ensures IsHexColor("#000000") && !IsLightColor("#000000")
  {
    assert Channel("#FFFFFF", 0) == 255 && Channel("#FFFFFF", 1) == 255 && Channel("#FFFFFF", 2) == 255;
    assert Channel("#000000", 0) == 0 && Channel("#000000", 1) == 0 && Channel("#000000", 2) == 0;
  }

  /** Raising any channel never turns a light colour dark. */
  lemma LightIsMonotone(r: nat, g: nat, b: nat, r': nat, g': nat, b': nat)
    requires r <= r' && g <= g' && b <= b'
    requires IsLight(r, g, b)
    ensures IsLight(r', g', b')
  {
  }

  /** The default categories' colours: "#3357FF" is dark and takes white
      text; the other four are light and take black text. */
  lemma DefaultTextColors()
    ensures forall i :: 0 <= i < |DefaultCategories| ==> IsHexColor(DefaultCategories[i].color)
    ensures TextColor("#FF5733") == "#000000" && TextColor("#33FF57") == "#000000"
    ensures TextColor("#3357FF") == "#FFFFFF"
    ensures TextColor("#FF33F5") == "#000000" && TextColor("#33FFF5") == "#000000"
  {
    assert IsHexColor("#FF5733") && Channel("#FF5733", 0) == 255 && Channel("#FF5733", 1) == 87 && Channel("#FF5733", 2) == 51;
    assert IsHexColor("#33FF57") && Channel("#33FF57", 0) == 51 && Channel("#33FF57", 1) == 255 && Channel("#33FF57", 2) == 87;
    assert IsHexColor("#3357FF") && Channel("#3357FF", 0) == 51 && Channel("#3357FF", 1) == 87 && Channel("#3357FF", 2) == 255;
    assert IsHexColor("#FF33F5") && Channel("#FF33F5", 0) == 255 && Channel("#FF33F5", 1) == 51 && Channel("#FF33F5", 2) == 245;
    assert IsHexColor("#33FFF5") && Channel("#33FFF5", 0) == 51 && Channel("#33FFF5", 1) == 255 && Channel("#33FFF5", 2) == 245;
  }
}
