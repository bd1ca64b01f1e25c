/**
 * The category filter bar (src/components/map/CategoryFilter.tsx): an "All" button
 * followed by one button per descriptor-table entry. Pressing a button hands the
 * next filter value to the page; the button matching the current filter is drawn
 * with the "default" variant.
 */
module CategoryFilter {

  import opened Options
  import opened LocationTypes

  datatype Button = AllButton | CategoryButton(key: Category)

  /** The buttons in the order they are drawn: "All", then the table's entries. */
  function Buttons(): (bs: seq<Button>)
    ensures |bs| == 1 + |CategoryConfig|
    ensures bs[0] == AllButton
    ensures forall c: Category :: bs[1 + Position(c)] == CategoryButton(c)
    ensures forall i :: 1 <= i < |bs| ==> bs[i] == CategoryButton(Categories[i - 1])
  {
    ConfigTotal();
    [AllButton] + seq(|Categories|, i requires 0 <= i < |Categories| => CategoryButton(Categories[i]))
  }

  /** The value `onChange` receives when button `b` is pressed while `selected` is the filter. */
  function Press(selected: Option<Category>, b: Button): (next: Option<Category>)
    ensures b == AllButton ==> next == None
    ensures b.CategoryButton? ==> (next == None <==> selected == Some(b.key))
    ensures next.Some? ==> b == CategoryButton(next.value)
  {
    match b
    case AllButton => None
    case CategoryButton(k) => if selected == Some(k) then None else Some(k)
  }

  /** Whether button `b` is drawn with the "default" variant. */
  predicate IsDefault(selected: Option<Category>, b: Button) {
    match b
    case AllButton => selected == None
    case CategoryButton(k) => selected == Some(k)
  }

  /** The one button drawn as "default" for a given filter. */
  function DefaultButton(selected: Option<Category>): (i: nat)
    ensures i < |Buttons()| && IsDefault(selected, Buttons()[i])
    ensures forall j :: 0 <= j < |Buttons()| && IsDefault(selected, Buttons()[j]) ==> j == i
    ensures selected == None <==> Buttons()[i] == AllButton
  {
    CategoriesEnumerated();
    match selected
    case None => 0
    case Some(c) => 1 + Position(c)
  }

  /** Pressing a category button twice toggles it on and off again, or off and on again. */
  lemma PressTwice(selected: Option<Category>, k: Category)
    ensures Press(Press(selected, CategoryButton(k)), CategoryButton(k))
            == (if selected == Some(k) then selected else None)
  {
  }

  /** After a press, the pressed button is the default one unless the press cleared its own filter. */
  lemma PressedButtonBecomesDefault(selected: Option<Category>, b: Button)
    ensures IsDefault(Press(selected, b), b) <==> !(b.CategoryButton? && selected == Some(b.key))
  {
  }
}
