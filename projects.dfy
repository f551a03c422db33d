/**
 * The projects section: the fixed category tabs and their labels, the tech items of a
 * card, and the preview glyph.
 */
module Projects {
  import opened JsStrings
  import opened JsCollections
  import opened Tabs

  /** The filter tabs, in display order. */
  const Categories: seq<string> := ["all", "full-stack", "frontend", "backend", "ai/ml", "mobile"]

  /** Six distinct categories, starting with `all`. */
  lemma CategoriesShape()
    ensures |Categories| == 6 && Categories[0] == "all"
    ensures NoDuplicates(Categories)
  {
    forall i, j | 0 <= i < j < |Categories| ensures Categories[i] != Categories[j] {
      assert |Categories[i]| != |Categories[j]|;
    }
  }

  /**
   * Only the tab equal to the active filter is styled as selected: never more than one,
   * and exactly one when the filter is one of the categories, as it is after any click.
   */
  lemma OneProjectTabSelected(activeFilter: string)
    ensures |SelectedTabs(Categories, activeFilter)| <= 1
    ensures |SelectedTabs(Categories, activeFilter)| == 1 <==> activeFilter in Categories
  {
    CategoriesShape();
    SelectedTabsOfDistinct(Categories, activeFilter);
  }

  /** `category.replace('-', ' ')` */
  function TabLabel(category: string): string {
    ReplaceFirst(category, '-', ' ')
  }

  /**
   * A label keeps the length of its category; only the first `-` becomes a space, so the
   * label has one `-` fewer when the category has any, and is the category unchanged
   * otherwise.
   */
  lemma TabLabelSpec(category: string)
    ensures |TabLabel(category)| == |category|
    ensures '-' !in category ==> TabLabel(category) == category
    ensures '-' in category ==>
              var i := IndexOf(category, '-');
              TabLabel(category) == category[..i] + " " + category[i + 1..]
    ensures Occurrences(TabLabel(category), '-') ==
              if '-' in category then Occurrences(category, '-') - 1 else Occurrences(category, '-')
  {
    ReplaceFirstOccurrences(category, '-', ' ');
    if '-' !in category {
      ReplaceFirstAbsent(category, '-', ' ');
    }
  }

  /** `project.stack.split(',').map(tech => tech.trim())` */
  function TechItems(stack: string): seq<string> {
    var pieces := Split(stack, ',');
    seq(|pieces|, k requires 0 <= k < |pieces| => Trim(pieces[k]))
  }

  /** Trimming a comma-free piece gives a comma-free window of it that is its own trim. */
  lemma TrimmedPiece(piece: string)
    requires ',' !in piece
    ensures exists i, j :: 0 <= i <= j <= |piece| && Trim(piece) == piece[i..j]
    ensures ',' !in Trim(piece)
    ensures Trim(Trim(piece)) == Trim(piece)
  {
    TrimWindow(piece);
    TrimIdempotent(piece);
  }

  /** One item per comma-separated piece: one more items than commas. */
  lemma TechItemsCount(stack: string)
    ensures |TechItems(stack)| == Occurrences(stack, ',') + 1
  {
    SplitCount(stack, ',');
  }

  /**
   * Item `k` is what remains of piece `k` of the stack once the whitespace around it is
   * dropped, and the pieces joined back with commas are the stack, so the items keep the
   * order of the stack. No item holds a comma or starts or ends with whitespace.
   */
  lemma TechItemSpec(stack: string, k: nat)
    requires k < |Split(stack, ',')|
    ensures Join(Split(stack, ','), ',') == stack
    ensures k < |TechItems(stack)|
    ensures exists i, j :: 0 <= i <= j <= |Split(stack, ',')[k]| && TechItems(stack)[k] == Split(stack, ',')[k][i..j]
    ensures ',' !in TechItems(stack)[k]
    ensures Trim(TechItems(stack)[k]) == TechItems(stack)[k]
  {
    JoinSplit(stack, ',');
    SplitPiecesFree(stack, ',');
    TrimmedPiece(Split(stack, ',')[k]);
  }

  /** A stack written from comma-free, already trimmed names lists those names back. */
  lemma TechItemsOfJoin(names: seq<string>)
    requires |names| >= 1
    requires forall k :: 0 <= k < |names| ==> ',' !in names[k] && Trim(names[k]) == names[k]
    ensures TechItems(Join(names, ',')) == names
  {
    SplitJoin(names, ',');
  }

  /** `project.title.charAt(0)`: the first character, or nothing for an empty title. */
  function PreviewGlyph(title: string): (g: string)
    ensures g <= title
    ensures |g| == if |title| == 0 then 0 else 1
  {
    if |title| == 0 then "" else title[..1]
  }
}
