/** The duplicate side-menu repair (`fixDuplicateSidemenus`,
    content.js:112-135): when the page holds several side menus, every visible
    menu after the first visible one is hidden. A menu is represented by one
    flag, `true` when its computed `display` is not `none`. */
module Sidemenu {

  /** The menus as they should end up: with more than one menu, a menu stays
      visible exactly when it was visible and no menu before it was. */
  function FirstVisibleOnly(s: seq<bool>): seq<bool>
  {
    if |s| <= 1 then s
    else seq(|s|, k requires 0 <= k < |s| => s[k] && true !in s[..k])
  }

  /** The loop of `fixDuplicateSidemenus` over the menus in document order. */
  method FixDuplicateSidemenus(visible: array<bool>)
    modifies visible
    ensures visible[..] == FirstVisibleOnly(old(visible[..]))
  {
    ghost var s := visible[..];
    if visible.Length > 1 {
      var visibleFound := false;
      for index := 0 to visible.Length
        invariant visibleFound <==> true in s[..index]
        invariant forall k :: 0 <= k < index ==> visible[k] == (s[k] && true !in s[..k])
        invariant forall k :: index <= k < visible.Length ==> visible[k] == s[k]
      {
        assert s[..index + 1] == s[..index] + [s[index]];
        if index == 0 && visible[0] {
          visibleFound := true;
          continue;
        }
        if visibleFound {
          visible[index] := false;
        } else if visible[index] {
          visibleFound := true;
        }
      }
    }
  }

  /** At most one menu is visible afterwards. */
  lemma AtMostOneVisible(s: seq<bool>, p: nat, q: nat)
    requires p < q < |FirstVisibleOnly(s)|
    ensures !(FirstVisibleOnly(s)[p] && FirstVisibleOnly(s)[q])
  {
    if |s| > 1 && FirstVisibleOnly(s)[p] {
      assert s[..q][p] == s[p];
    }
  }

  /** The menu left visible is the first one that was visible, and one is
      left whenever any was. */
  lemma FirstVisibleKept(s: seq<bool>, k: nat)
    requires k < |s| && s[k] && true !in s[..k]
    ensures FirstVisibleOnly(s)[k]
  {
  }

  /** No hidden menu is shown, and the number of menus does not change. */
  lemma NothingRevealed(s: seq<bool>)
    ensures |FirstVisibleOnly(s)| == |s|
    ensures forall k :: 0 <= k < |s| && FirstVisibleOnly(s)[k] ==> s[k]
  {
  }

  /** Running the repair again changes nothing. */
  lemma Idempotent(s: seq<bool>)
    ensures FirstVisibleOnly(FirstVisibleOnly(s)) == FirstVisibleOnly(s)
  {
    var r := FirstVisibleOnly(s);
    if |s| > 1 {
      forall k | 0 <= k < |s| ensures r[k] == (r[k] && true !in r[..k]) {
        if r[k] {
          forall j | 0 <= j < k ensures !r[j] {
            AtMostOneVisible(s, j, k);
          }
          assert true !in r[..k];
        }
      }
    }
  }

  /** With a single menu (or none) nothing is touched, even a visible one. */
  lemma SingleMenuUntouched(s: seq<bool>)
    requires |s| <= 1
    ensures FirstVisibleOnly(s) == s
  {
  }
}
