/**
 * Toast notifications: the service fills in the defaults of a toast, and
 * the toast list keeps at most five, dropping the oldest first. The
 * five-second expiry timer becomes the explicit event `Expire`.
 */
module Toasts {
  import opened Wrappers
  import opened JsArray

  datatype ToastType = Success | Error | Info
  datatype Position = Top | Bottom

  /** A toast as emitted; the service always fills in the position and the icon. */
  datatype Toast = Toast(message: string, kind: ToastType, position: Position, icon: string)

  /** The most toasts shown at once. */
  const MaxToasts := 5

  /** The default icon of each toast type. */
  function IconFor(kind: ToastType): (icon: string)
    ensures icon != ""
  {
    match kind
    case Success => "check-fat"
    case Error => "x-circle"
    case Info => "info"
  }

  /** `showToast`: the toast it emits. A missing or empty icon becomes the type's icon; the position defaults to the bottom. */
  function ShowToast(message: string, kind: ToastType, icon: Option<string>, position: Option<Position>): (t: Toast)
    ensures t.message == message && t.kind == kind
    ensures t.icon != ""
    ensures icon.Some? && icon.value != "" ==> t.icon == icon.value
    ensures icon.None? || icon.value == "" ==> t.icon == IconFor(kind)
    ensures position.None? ==> t.position == Bottom
    ensures position.Some? ==> t.position == position.value
  {
    var icon := if icon.Some? && icon.value != "" then icon.value else IconFor(kind);
    Toast(message, kind, position.GetOr(Bottom), icon)
  }

  /** The toast list's subscription: drop the oldest when full, then append. */
  function OnToast(toasts: seq<Toast>, t: Toast): (r: seq<Toast>)
    ensures |r| > 0 && r[|r| - 1] == t
    ensures |toasts| < MaxToasts ==> r == toasts + [t]
    ensures |toasts| >= MaxToasts ==> r == toasts[1..] + [t]
    ensures |toasts| <= MaxToasts ==> |r| <= MaxToasts
  {
    var kept := if |toasts| >= MaxToasts then toasts[1..] else toasts;
    kept + [t]
  }

  /** `removeToast`: `splice(index, 1)`, so a negative index counts from the end and one past the end removes nothing. */
  function RemoveToast(toasts: seq<Toast>, index: int): (r: seq<Toast>)
    ensures 0 <= index < |toasts| ==> r == toasts[..index] + toasts[index + 1..]
    ensures index >= |toasts| ==> r == toasts
    ensures -|toasts| <= index < 0 ==> r == toasts[..|toasts| + index] + toasts[|toasts| + index + 1..]
  {
    Splice1(toasts, index)
  }

  /** The timer each toast starts: remove whatever is at index 0. */
  function Expire(toasts: seq<Toast>): (r: seq<Toast>)
    ensures |toasts| > 0 ==> r == toasts[1..]
    ensures |toasts| == 0 ==> r == []
  {
    RemoveToast(toasts, 0)
  }

  /** The list after the toasts `shown` arrive one by one on an empty list. */
  function ShowAll(shown: seq<Toast>): seq<Toast> {
    if |shown| == 0 then [] else OnToast(ShowAll(shown[..|shown| - 1]), shown[|shown| - 1])
  }

  /** Without expiry, the list holds exactly the last five toasts shown (all of them while fewer), oldest first. */
  lemma {:induction false} ShowAllKeepsNewest(shown: seq<Toast>)
    ensures |shown| <= MaxToasts ==> ShowAll(shown) == shown
    ensures |shown| > MaxToasts ==> ShowAll(shown) == shown[|shown| - MaxToasts..]
  {
    if |shown| > 0 {
      var prefix := shown[..|shown| - 1];
      var t := shown[|shown| - 1];
      var kept := ShowAll(prefix);
      assert ShowAll(shown) == OnToast(kept, t);
      ShowAllKeepsNewest(prefix);
      if |shown| <= MaxToasts {
        assert shown == prefix + [t];
      } else {
        assert kept[1..] == prefix[|prefix| - MaxToasts + 1..] by {
          assert kept == prefix[|prefix| - MaxToasts..];
        }
        assert shown[|shown| - MaxToasts..] == prefix[|prefix| - MaxToasts + 1..] + [t] by {
          assert shown == prefix + [t];
          LastOfSnoc(prefix, t, MaxToasts);
        }
      }
    }
  }

  /** The last `n` items of `xs + [t]` are the last `n - 1` of `xs`, then `t`. */
  lemma LastOfSnoc(xs: seq<Toast>, t: Toast, n: nat)
    requires 0 < n <= |xs| + 1
    ensures (xs + [t])[|xs| + 1 - n..] == xs[|xs| + 1 - n..] + [t]
  {
  }
}
