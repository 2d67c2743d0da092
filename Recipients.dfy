/**
 * The recipient list (lines 23-26): the `DESTINATARIOS` setting is split on
 * commas and each address is stripped of surrounding whitespace; an unset or
 * empty setting gives no recipients.
 */
module Recipients {
  import opened Wrappers
  import opened Strings

  function StripAll(fields: seq<string>): (r: seq<string>)
    ensures |r| == |fields|
  {
    seq(|fields|, i requires 0 <= i < |fields| => Strip(fields[i]))
  }

  function ParseRecipients(setting: Option<string>): seq<string> {
    match setting
    case None => []
    case Some(s) => if s == [] then [] else StripAll(Split(s, ","))
  }

  /**
   * An unset or empty setting gives no recipient.  Otherwise there is one
   * address per comma-separated field (so one more than the number of
   * commas); each address is its field stripped, so it neither starts nor
   * ends with whitespace and holds no comma, and the fields rejoined with
   * commas give back the setting.
   */
  lemma ParseRecipientsFields(setting: Option<string>)
    ensures setting.None? || setting == Some([]) ==> ParseRecipients(setting) == []
    ensures setting.Some? && setting.value != [] ==>
      var s := setting.value;
      var fields := Split(s, ",");
      var r := ParseRecipients(setting);
      && |r| == multiset(s)[','] + 1
      && Join(fields, ",") == s
      && forall i | 0 <= i < |r| ::
           && r[i] == Strip(fields[i])
           && (r[i] == [] || (!IsSpace(r[i][0]) && !IsSpace(r[i][|r[i]| - 1])))
           && ',' !in r[i]
  {
    if setting.Some? && setting.value != [] {
      var s := setting.value;
      var fields := Split(s, ",");
      SplitCount(s, ",");
      CountChar(s, ',');
      SplitJoin(s, ",");
      SplitPiecesFree(s, ",");
      forall i | 0 <= i < |fields| ensures ',' !in Strip(fields[i]) {
        NoCommaAfterStrip(fields[i]);
      }
    }
  }

  lemma NoCommaAfterStrip(field: string)
    requires !Contains(field, ",")
    ensures ',' !in Strip(field)
  {
    var r := Strip(field);
    StripRemovesOuterSpaces(field);
    var lo := StripStart(field, 0);
    forall k | 0 <= k < |r| ensures r[k] != ',' {
      assert !StartsAt(field, lo + k, ",");
      assert field[lo + k..lo + k + 1] == [r[k]];
    }
  }
}
