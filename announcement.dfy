/**
 * `sendAnnouncement`: one message per registered user, counting the sends
 * that went through and the ones that did not. The transport is abstracted
 * as one send outcome per user.
 */
module Announcement {
  import opened Common

  /** `user.telegramId` is truthy: present and not the empty string. */
  predicate HasId(telegramId: Option<string>)
  {
    telegramId.Some? && telegramId.value != ""
  }

  /** How many users have no usable id. */
  function Missing(ids: seq<Option<string>>): (n: nat)
    ensures n <= |ids|
  {
    if ids == [] then 0
    else Missing(ids[..|ids| - 1]) + (if HasId(ids[|ids| - 1]) then 0 else 1)
  }

  /**
   * How many users received the announcement: those with a usable id whose
   * send (`sent`, one outcome per user) succeeded.
   */
  function Delivered(ids: seq<Option<string>>, sent: seq<bool>): (n: nat)
    requires |sent| == |ids|
    ensures n <= |ids| - Missing(ids)
  {
    if ids == [] then 0
    else
      Delivered(ids[..|ids| - 1], sent[..|sent| - 1])
        + (if HasId(ids[|ids| - 1]) && sent[|sent| - 1] then 1 else 0)
  }

  /** The counting loop: every user is a success or a failure, never both. */
  method SendAnnouncement(ids: seq<Option<string>>, sent: seq<bool>)
    returns (successCount: nat, failCount: nat)
    requires |sent| == |ids|
    ensures successCount == Delivered(ids, sent)
    ensures successCount + failCount == |ids|
    ensures failCount >= Missing(ids)
  {
    successCount, failCount := 0, 0;
    var i := 0;
    while i < |ids|
      invariant i <= |ids|
      invariant successCount == Delivered(ids[..i], sent[..i])
      invariant successCount + failCount == i
    {
      assert ids[..i + 1][..i] == ids[..i] && sent[..i + 1][..i] == sent[..i];
      if HasId(ids[i]) && sent[i] {
        successCount := successCount + 1;
      } else {
        failCount := failCount + 1;
      }
      i := i + 1;
    }
    assert ids[..i] == ids && sent[..i] == sent;
  }
}
