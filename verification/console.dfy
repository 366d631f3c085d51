/** The admin console script public/js/main.js: how a listed key is shown
    (status badge, fingerprint column, lock button), how a log action is
    translated, and the bulk-action bar with its two guards. The DOM is a
    sequence of checkboxes; alerts and requests are returned as values. */
module Console {
  import opened Optional

  /** One key as the console receives it from `GET /api/keys` (main.js:39).
      index.js defines no such route, so the fields are assumed to mirror a
      row of `activation_keys`. */
  datatype KeyView = KeyView(
    id: string,
    activationKey: string,
    expiresAt: Option<int>,
    isLocked: bool,
    isActivated: bool,
    fingerprint: Option<string>)

  // ----- the status column -----

  datatype Status = Unused | Expired | Locked | Used

  /** The console's order: expired first, then locked, then used. Each status
      holds exactly when the earlier ones do not and its own flag is set. */
  function StatusOf(k: KeyView, now: int): (s: Status)
    ensures s == Expired <==> k.expiresAt.Some? && k.expiresAt.value < now
    ensures s == Locked <==> s != Expired && k.isLocked
    ensures s == Used <==> s != Expired && !k.isLocked && k.isActivated
    ensures s == Unused <==> !(k.expiresAt.Some? && k.expiresAt.value < now) && !k.isLocked && !k.isActivated
  {
    if k.expiresAt.Some? && k.expiresAt.value < now then Expired
    else if k.isLocked then Locked
    else if k.isActivated then Used
    else Unused
  }

  datatype Badge = Badge(text: string, cssClass: string)

  /** Only an unused key gets the "ok" style. */
  function BadgeOf(s: Status): (b: Badge)
    ensures b.cssClass == "status-ok" <==> s == Unused
    ensures b.text != ""
  {
    match s
    case Unused => Badge("Chưa dùng", "status-ok")
    case Expired => Badge("Hết hạn", "status-expired")
    case Locked => Badge("Bị khóa", "status-locked")
    case Used => Badge("Đã dùng", "status-used")
  }

  /** Different statuses get different badges, in text and in style. */
  lemma BadgesTellStatusesApart(s1: Status, s2: Status)
    requires s1 != s2
    ensures BadgeOf(s1).text != BadgeOf(s2).text
    ensures BadgeOf(s1).cssClass != BadgeOf(s2).cssClass
  {
  }

  // ----- the fingerprint column -----

  const Placeholder: string := "---"
  const FingerprintWidth: nat := 15

  /** `(fingerprint || '---').substring(0, 15)`. */
  function FingerprintShown(fp: Option<string>): (r: string)
    ensures |r| <= FingerprintWidth
    ensures fp.None? || fp.value == "" ==> r == Placeholder
    ensures fp.Some? && fp.value != "" ==>
      && r <= fp.value
      && r != ""
      && (|fp.value| <= FingerprintWidth ==> r == fp.value)
      && (|fp.value| > FingerprintWidth ==> |r| == FingerprintWidth)
  {
    var text := if fp.None? || fp.value == "" then Placeholder else fp.value;
    if |text| <= FingerprintWidth then text else text[..FingerprintWidth]
  }

  // ----- the key table -----

  /** What one table row shows: its key id (on the row and on its checkbox),
      the status badge, the fingerprint column and the lock button's label. */
  datatype Row = Row(keyId: string, status: Status, badge: Badge, fingerprint: string, lockLabel: string)

  datatype TableBody = NoKeysFound | Rows(rows: seq<Row>)

  /** The row of one key: the lock button offers to unlock exactly the locked
      keys, the fingerprint fits the column, and the "ok" badge marks exactly
      the keys that are neither expired, locked nor activated. */
  function RowOf(k: KeyView, now: int): (r: Row)
    ensures r.keyId == k.id
    ensures r.lockLabel == "Mở" <==> k.isLocked
    ensures |r.fingerprint| <= FingerprintWidth
    ensures r.badge.cssClass == "status-ok" <==>
      !(k.expiresAt.Some? && k.expiresAt.value < now) && !k.isLocked && !k.isActivated
  {
    var s := StatusOf(k, now);
    Row(k.id, s, BadgeOf(s), FingerprintShown(k.fingerprint), if k.isLocked then "Mở" else "Khóa")
  }

  /** `renderTable`: the "no key found" line for an empty list, otherwise one
      row per key in the order received. */
  function RenderTable(keys: seq<KeyView>, now: int): (b: TableBody)
    ensures b.NoKeysFound? <==> keys == []
    ensures b.Rows? ==> |b.rows| == |keys|
    ensures b.Rows? ==> forall i :: 0 <= i < |keys| ==>
      && b.rows[i].keyId == keys[i].id
      && b.rows[i].status == StatusOf(keys[i], now)
      && b.rows[i].badge == BadgeOf(b.rows[i].status)
      && b.rows[i].fingerprint == FingerprintShown(keys[i].fingerprint)
      && (b.rows[i].lockLabel == "Mở" <==> keys[i].isLocked)
  {
    if keys == [] then NoKeysFound
    else Rows(seq(|keys|, i requires 0 <= i < |keys| => RowOf(keys[i], now)))
  }

  // ----- the history modal -----

  const LogTranslations: map<string, string> := map[
    "first_activation" := "Kích hoạt lần đầu",
    "reactivate_same_device" := "Kích hoạt lại (cùng máy)",
    "new_device_kick_old" := "Kích hoạt máy mới (đá máy cũ)",
    "denied_invalid_key" := "Từ chối: Key không hợp lệ",
    "denied_locked" := "Từ chối: Key đã bị khóa",
    "denied_expired" := "Từ chối: Key đã hết hạn",
    "denied_kicked_out" := "Từ chối: Bị đá khỏi phiên",
    "denied_locked_on_heartbeat" := "Từ chối: Key bị khóa từ xa"
  ]

  /** `logTranslations[log.action] || log.action`: a known action is shown
      translated (no translation is empty), any other verbatim. */
  function ActionText(action: string): (text: string)
    ensures action in LogTranslations ==> text == LogTranslations[action] && text != action
    ensures action !in LogTranslations ==> text == action
  {
    if action in LogTranslations && LogTranslations[action] != "" then LogTranslations[action]
    else action
  }

  /** Two log entries with different actions never read the same, as long as
      neither action is itself one of the translated texts. */
  lemma ActionTextInjective(a: string, b: string)
    requires a !in LogTranslations.Values && b !in LogTranslations.Values
    requires a != b
    ensures ActionText(a) != ActionText(b)
  {
    if a in LogTranslations && b in LogTranslations {
      TranslationsDistinct(a, b);
    }
  }

  lemma TranslationsDistinct(a: string, b: string)
    requires a in LogTranslations && b in LogTranslations && a != b
    ensures LogTranslations[a] != LogTranslations[b]
  {
  }

  // ----- selection and the bulk-action bar -----

  /** A row's `.key-checkbox`, carrying the row's key id. */
  datatype Checkbox = Checkbox(keyId: string, checked: bool)

  /** `document.querySelectorAll('.key-checkbox:checked').length`. */
  function CheckedCount(boxes: seq<Checkbox>): (n: nat)
    ensures n <= |boxes|
  {
    if boxes == [] then 0
    else (if boxes[0].checked then 1 else 0) + CheckedCount(boxes[1..])
  }

  lemma {:induction false} SomeCheckedIff(boxes: seq<Checkbox>)
    ensures CheckedCount(boxes) > 0 <==> exists i :: 0 <= i < |boxes| && boxes[i].checked
  {
    if boxes != [] {
      SomeCheckedIff(boxes[1..]);
      if CheckedCount(boxes[1..]) > 0 {
        var i :| 0 <= i < |boxes[1..]| && boxes[1..][i].checked;
        assert boxes[i + 1].checked;
      }
      if exists i :: 0 <= i < |boxes| && boxes[i].checked {
        var i :| 0 <= i < |boxes| && boxes[i].checked;
        if i > 0 { assert boxes[1..][i - 1].checked; }
      }
    }
  }

  lemma {:induction false} AllCheckedIff(boxes: seq<Checkbox>)
    ensures CheckedCount(boxes) == |boxes| <==> forall i :: 0 <= i < |boxes| ==> boxes[i].checked
  {
    if boxes != [] {
      AllCheckedIff(boxes[1..]);
      if CheckedCount(boxes) == |boxes| {
        assert boxes[0].checked;
        forall i | 0 <= i < |boxes|
          ensures boxes[i].checked
        {
          if i > 0 { assert boxes[1..][i - 1] == boxes[i]; }
        }
      }
      if forall i :: 0 <= i < |boxes| ==> boxes[i].checked {
        forall i | 0 <= i < |boxes[1..]|
          ensures boxes[1..][i].checked
        {
          assert boxes[1..][i] == boxes[i + 1];
        }
      }
    }
  }

  /** What `updateBulkActionBar` sets: the "selected: n" count, whether the bar
      is displayed, and the header checkbox. */
  datatype BulkBar = BulkBar(selectedCount: nat, visible: bool, selectAllChecked: bool)

  function BarFor(boxes: seq<Checkbox>): (b: BulkBar)
    ensures b.selectedCount <= |boxes|
    ensures b.selectAllChecked ==> b.visible && b.selectedCount == |boxes|
  {
    var count := CheckedCount(boxes);
    BulkBar(count, count > 0, count > 0 && count == |boxes|)
  }

  /** The bar is displayed exactly when some row is checked. */
  lemma BarVisibleIff(boxes: seq<Checkbox>)
    ensures BarFor(boxes).visible <==> exists i :: 0 <= i < |boxes| && boxes[i].checked
  {
    SomeCheckedIff(boxes);
  }

  /** The header checkbox is ticked exactly when there are rows and all are checked. */
  lemma SelectAllIff(boxes: seq<Checkbox>)
    ensures BarFor(boxes).selectAllChecked <==>
      |boxes| > 0 && forall i :: 0 <= i < |boxes| ==> boxes[i].checked
  {
    AllCheckedIff(boxes);
  }

  /** The header checkbox's change handler: every row takes its value. */
  function SetAll(boxes: seq<Checkbox>, v: bool): (r: seq<Checkbox>)
    ensures |r| == |boxes|
    ensures forall i :: 0 <= i < |r| ==> r[i].keyId == boxes[i].keyId && r[i].checked == v
  {
    seq(|boxes|, i requires 0 <= i < |boxes| => boxes[i].(checked := v))
  }

  /** Ticking the header checkbox selects every row and shows the bar (when
      there are rows); unticking it clears the selection and hides the bar. */
  lemma SetAllUpdatesBar(boxes: seq<Checkbox>, v: bool)
    ensures BarFor(SetAll(boxes, v)) ==
      if v && |boxes| > 0 then BulkBar(|boxes|, true, true) else BulkBar(0, false, false)
  {
    var r := SetAll(boxes, v);
    AllCheckedIff(r);
    SomeCheckedIff(r);
  }

  /** The `data-key-id` of every checked row, in table order. */
  function SelectedIds(boxes: seq<Checkbox>): (ids: seq<string>)
    ensures |ids| == CheckedCount(boxes)
  {
    if boxes == [] then []
    else (if boxes[0].checked then [boxes[0].keyId] else []) + SelectedIds(boxes[1..])
  }

  lemma {:induction false} SelectedIdsAreTheChecked(boxes: seq<Checkbox>, id: string)
    ensures id in SelectedIds(boxes) <==>
      exists i :: 0 <= i < |boxes| && boxes[i].checked && boxes[i].keyId == id
  {
    if boxes != [] {
      SelectedIdsAreTheChecked(boxes[1..], id);
      var tail := boxes[1..];
      if exists i :: 0 <= i < |tail| && tail[i].checked && tail[i].keyId == id {
        var i :| 0 <= i < |tail| && tail[i].checked && tail[i].keyId == id;
        assert boxes[i + 1] == tail[i];
      }
      if exists i :: 0 <= i < |boxes| && boxes[i].checked && boxes[i].keyId == id {
        var i :| 0 <= i < |boxes| && boxes[i].checked && boxes[i].keyId == id;
        if i > 0 { assert tail[i - 1] == boxes[i]; }
      }
    }
  }

  // ----- the bulk action: two guards, then the request -----

  /** The action and ids captured when "execute" is clicked. */
  datatype PendingBulk = PendingBulk(action: string, keyIds: seq<string>)

  datatype ExecuteOutcome =
    | AlertChooseActionAndKeys       // no action chosen or no row checked
    | AskPassword(pending: PendingBulk)

  /** The first guard: the password is asked for only with an action chosen
      and some row checked, and the ids of the checked rows are kept. */
  function OnExecuteClick(action: string, boxes: seq<Checkbox>): (o: ExecuteOutcome)
    ensures o.AskPassword? <==> action != "" && exists i :: 0 <= i < |boxes| && boxes[i].checked
    ensures o.AskPassword? ==> o.pending == PendingBulk(action, SelectedIds(boxes))
  {
    SomeCheckedIff(boxes);
    var ids := SelectedIds(boxes);
    if action == "" || |ids| == 0 then AlertChooseActionAndKeys
    else AskPassword(PendingBulk(action, ids))
  }

  /** The body posted to /api/keys/bulk-action. */
  datatype BulkRequest = BulkRequest(action: string, keyIds: seq<string>, password: string)

  datatype ConfirmOutcome =
    | AlertEnterPassword              // the password field is empty
    | Send(request: BulkRequest)

  /** The second guard: a request goes out only with a password, and it
      carries the pending action and ids unchanged. */
  function OnConfirm(pending: PendingBulk, password: string): (o: ConfirmOutcome)
    ensures o.Send? <==> password != ""
    ensures o.Send? ==> o.request.action == pending.action && o.request.keyIds == pending.keyIds
                        && o.request.password == password
  {
    if password == "" then AlertEnterPassword
    else Send(BulkRequest(pending.action, pending.keyIds, password))
  }

  /** Clicking "execute" and then confirming with `password`. */
  function BulkFlow(action: string, boxes: seq<Checkbox>, password: string): (r: Option<BulkRequest>)
    ensures r.Some? ==> r.value.action != "" && r.value.password != "" && |r.value.keyIds| > 0
  {
    match OnExecuteClick(action, boxes)
    case AlertChooseActionAndKeys => None
    case AskPassword(pending) =>
      match OnConfirm(pending, password)
      case AlertEnterPassword => None
      case Send(request) => Some(request)
  }

  /** A request goes out exactly when an action is chosen, some row is checked
      and a password is typed, and it carries exactly those, with the ids of the
      checked rows in table order. */
  lemma BulkRequestIff(action: string, boxes: seq<Checkbox>, password: string)
    ensures BulkFlow(action, boxes, password).Some? <==>
      action != "" && password != "" && exists i :: 0 <= i < |boxes| && boxes[i].checked
    ensures BulkFlow(action, boxes, password).Some? ==>
      BulkFlow(action, boxes, password).value == BulkRequest(action, SelectedIds(boxes), password)
  {
    SomeCheckedIff(boxes);
  }

  /** Nothing can be sent while the bar is hidden, whatever action is chosen. */
  lemma HiddenBarSendsNothing(action: string, boxes: seq<Checkbox>, password: string)
    requires !BarFor(boxes).visible
    ensures OnExecuteClick(action, boxes) == AlertChooseActionAndKeys
    ensures BulkFlow(action, boxes, password).None?
  {
  }
}
