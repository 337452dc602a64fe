/**
 * The inbox record (Models/Inbox.cs) and the "blank item" test that the
 * service applies to it (string.IsNullOrWhiteSpace).
 */
module Models {

  /** A C# reference that may be null. */
  datatype Option<+T> = None | Some(value: T)

  /** An opaque clock reading; the service is handed the current time. */
  type Time = int

  /**
   * One inbox record. `id` 0 means "not yet persisted"; every other field may
   * be absent, and nothing at this level constrains `item`.
   */
  datatype Inbox = Inbox(
    id: int,
    item: Option<string>,
    createTime: Option<Time>,
    modifyTime: Option<Time>)

  /** The parameterless constructor `Inbox()`. */
  function NewInbox(): (r: Inbox)
    ensures r.id == 0
    ensures r.item.None? && r.createTime.None? && r.modifyTime.None?
  {
    Inbox(0, None, None, None)
  }

  /** The constructor `Inbox(item)`: any item, null and "" included, is kept as given. */
  function NewInboxWithItem(item: Option<string>): (r: Inbox)
    ensures r.id == 0 && r.item == item
    ensures r.createTime.None? && r.modifyTime.None?
  {
    NewInbox().(item := item)
  }

  /** The characters for which .NET's Char.IsWhiteSpace holds. */
  predicate IsWhiteSpace(c: char) {
    ('\t' <= c <= '\r') || c == ' ' || c == '\U{0085}' || c == '\U{00A0}' ||
    c == '\U{1680}' || ('\U{2000}' <= c <= '\U{200A}') || c == '\U{2028}' ||
    c == '\U{2029}' || c == '\U{202F}' || c == '\U{205F}' || c == '\U{3000}'
  }

  /** string.IsNullOrWhiteSpace: null, empty, or made only of white space. */
  predicate IsBlank(item: Option<string>): (blank: bool)
    ensures item.None? ==> blank
    ensures item.Some? ==> (blank <==> forall c :: c in item.value ==> IsWhiteSpace(c))
  {
    match item
    case None => true
    case Some(s) => forall i :: 0 <= i < |s| ==> IsWhiteSpace(s[i])
  }

  /** The empty item and white space are blank; one visible character makes an item not blank. */
  lemma BlankCharacterised(s: string)
    ensures IsBlank(Some("")) && IsBlank(Some(" \t"))
    ensures (exists c :: c in s && !IsWhiteSpace(c)) <==> !IsBlank(Some(s))
  {
  }
}
