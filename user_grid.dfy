/** The state of the `UserGrid` component and its event handlers.

    Each handler runs atomically; the promise of its HTTP call is an
    `Outcome` argument, and the state changes only when it succeeded. */
module Dashboard {
  import opened Outcomes
  import opened Text
  import opened Sequences
  import opened Users

  class UserGrid {
    /** The authoritative list. */
    var rowData: seq<User>
    /** The rows the grid renders. */
    var filteredData: seq<User>
    /** The search box's content, as stored: lower-cased. */
    var search: string
    var isModalVisible: bool
    /** The row whose edit button opened the modal; None when it was opened by "Add". */
    var editingUser: Option<User>

    /** The view is always an order-preserving subsequence of the list (it is
        NOT always the search result: edit and add bypass the search), and the
        stored search term is lower-case. */
    ghost predicate Valid()
      reads this
    {
      IsSubseq(filteredData, rowData) && IsLower(search)
    }

    /** The initial `useState` values. */
    constructor ()
      ensures Valid()
      ensures rowData == [] && filteredData == [] && search == []
      ensures !isModalVisible && editingUser == None
    {
      rowData, filteredData, search := [], [], [];
      isModalVisible, editingUser := false, None;
    }

    /** The fetch on mount: on success both lists become the mapped users. */
    method FetchUsers(reply: Outcome<seq<RawUser>>)
      requires Valid()
      modifies this
      ensures Valid()
      ensures reply.Succeeded? ==> rowData == MapUsers(reply.body) && filteredData == rowData
      ensures reply.Succeeded? ==> (UniqueIds(rowData) <==>
        forall i, j :: 0 <= i < j < |reply.body| ==> reply.body[i].id != reply.body[j].id)
      ensures reply.Failed? ==> rowData == old(rowData) && filteredData == old(filteredData)
      ensures search == old(search) && isModalVisible == old(isModalVisible)
      ensures editingUser == old(editingUser)
    {
      if reply.Succeeded? {
        var processed := MapUsers(reply.body);
        rowData := processed;
        filteredData := processed;
        SubseqRefl(processed);
      }
    }

    /** `handleDelete(id)`: on success every row with that id leaves both lists. */
    method HandleDelete(id: int, reply: Outcome<()>)
      requires Valid()
      modifies this
      ensures Valid()
      ensures reply.Succeeded? ==> rowData == WithoutId(old(rowData), id)
      ensures reply.Succeeded? ==> filteredData == WithoutId(old(filteredData), id)
      ensures reply.Failed? ==> rowData == old(rowData) && filteredData == old(filteredData)
      ensures old(UniqueIds(rowData)) ==> UniqueIds(rowData)
      ensures search == old(search) && isModalVisible == old(isModalVisible)
      ensures editingUser == old(editingUser)
    {
      if reply.Succeeded? {
        WithoutIdKeepsSubseq(filteredData, rowData, id);
        WithoutIdContents(rowData, id);
        if UniqueIds(rowData) {
          SubseqUniqueIds(WithoutId(rowData, id), rowData);
        }
        rowData := WithoutId(rowData, id);
        filteredData := WithoutId(filteredData, id);
      }
    }

    /** `showModal(user)`: remembers the row to edit (None for "Add") and opens the modal. */
    method ShowModal(user: Option<User>)
      requires Valid()
      modifies this
      ensures Valid()
      ensures editingUser == user && isModalVisible
      ensures rowData == old(rowData) && filteredData == old(filteredData) && search == old(search)
    {
      editingUser := user;
      isModalVisible := true;
    }

    /** `handleCancel`: closes the modal and keeps everything else, `editingUser` included. */
    method HandleCancel()
      requires Valid()
      modifies this
      ensures Valid()
      ensures !isModalVisible
      ensures rowData == old(rowData) && filteredData == old(filteredData) && search == old(search)
      ensures editingUser == old(editingUser)
    {
      isModalVisible := false;
    }

    /** `handleOk(values)`. Failed validation changes nothing. Otherwise the
        modal closes whatever the network does, and on success an edit
        rewrites the matching rows and shows the whole list, while an add
        appends a user with the next id to both lists. `reply` carries the id
        the server echoed for a creation, which the new row does not use. */
    method HandleOk(values: FormValues, reply: Outcome<int>)
      requires Valid()
      modifies this
      ensures Valid()
      ensures !RequiredFieldsFilled(values) ==>
        && rowData == old(rowData) && filteredData == old(filteredData)
        && isModalVisible == old(isModalVisible)
      ensures RequiredFieldsFilled(values) ==> !isModalVisible
      ensures RequiredFieldsFilled(values) && reply.Failed? ==>
        rowData == old(rowData) && filteredData == old(filteredData)
      ensures RequiredFieldsFilled(values) && reply.Succeeded? && editingUser.Some? ==>
        && rowData == ApplyEdit(old(rowData), editingUser.value.id, values)
        && filteredData == rowData
      ensures RequiredFieldsFilled(values) && reply.Succeeded? && editingUser.None? ==>
        && rowData == old(rowData) + [NewUser(old(rowData), values)]
        && filteredData == old(filteredData) + [NewUser(old(rowData), values)]
      ensures old(UniqueIds(rowData)) ==> UniqueIds(rowData)
      ensures search == old(search) && editingUser == old(editingUser)
    {
      if !RequiredFieldsFilled(values) {
        return;
      }
      if editingUser.Some? {
        if reply.Succeeded? {
          var updated := ApplyEdit(rowData, editingUser.value.id, values);
          if UniqueIds(rowData) {
            ApplyEditUniqueIds(rowData, editingUser.value.id, values);
          }
          rowData := updated;
          filteredData := updated;
          SubseqRefl(updated);
        }
      } else {
        if reply.Succeeded? {
          var newUser := NewUser(rowData, values);
          if UniqueIds(rowData) {
            AppendNewUserUniqueIds(rowData, values);
          }
          SubseqAppend(filteredData, rowData, newUser);
          rowData := rowData + [newUser];
          filteredData := filteredData + [newUser];
        }
      }
      isModalVisible := false;
    }

    /** `handleSearch(input)`: stores the lower-cased input and shows the rows
        of the whole list, not of the current view, that match it. */
    method HandleSearch(input: string)
      requires Valid()
      modifies this
      ensures Valid()
      ensures search == Lower(input)
      ensures filteredData == SearchFilter(rowData, Lower(input))
      ensures rowData == old(rowData) && isModalVisible == old(isModalVisible)
      ensures editingUser == old(editingUser)
    {
      var value := Lower(input);
      search := value;
      SearchFilterContents(rowData, value);
      filteredData := SearchFilter(rowData, value);
    }
  }
}
