/** The squad list (pages/PlayersListPage.tsx): the name search and the
    add-player form's validation and the player record it sends. */
module PlayersPage {
  import opened Seqs
  import opened Types
  import Text
  import Dates
  import Store

  /** The search keeps a player whose lower-cased name contains the lower-cased term. */
  function NameMatches(term: string): Player -> bool
  {
    (p: Player) => Text.Contains(Text.ToLower(p.name), Text.ToLower(term))
  }

  /** `filteredPlayers` */
  function Search(players: seq<Player>, term: string): (r: seq<Player>)
    ensures forall p :: p in r <==> p in players && Text.Contains(Text.ToLower(p.name), Text.ToLower(term))
  {
    var r := Filter(players, NameMatches(term));
    assert forall p :: p in r ==> exists i :: 0 <= i < |r| && r[i] == p;
    assert forall p :: p in players ==> exists i :: 0 <= i < |players| && players[i] == p;
    r
  }

  /** An empty search lists every player, in order. */
  lemma EmptySearchListsAll(players: seq<Player>)
    ensures Search(players, "") == players
  {
    forall i | 0 <= i < |players|
      ensures NameMatches("")(players[i])
    {
      Text.ContainsEmpty(Text.ToLower(players[i].name));
    }
    FilterAll(players, NameMatches(""));
  }

  /** A player is found by its own name and by any part of it. */
  lemma SearchFindsPart(players: seq<Player>, p: Player, i: nat, j: nat)
    requires p in players && i <= j <= |p.name|
    ensures p in Search(players, p.name[i..j])
  {
    var n := p.name;
    assert n == n[..i] + n[i..j] + n[j..];
    Text.ToLowerAppend(n[..i] + n[i..j], n[j..]);
    Text.ToLowerAppend(n[..i], n[i..j]);
    var a, b := Text.ToLower(n[..i]), Text.ToLower(n[i..j]);
    assert Text.ToLower(n)[|a|..|a| + |b|] == b;
    Text.ContainsAt(Text.ToLower(n), b, |a|);
  }

  /** The add form's fields, all text, as the inputs hold them. */
  datatype AddForm = AddForm(name: string, position: string, phone: string, email: string, birthDate: string)

  /** `handleSubmit`: the name and the position are required; the other
      fields are sent as typed, and an empty birth date as absent. */
  function AddPlayerInput(f: AddForm): (r: Result<Store.PlayerInfo>)
    ensures r.Err? <==> f.name == "" || f.position == ""
    ensures r.Err? ==> r == Err("Ad ve pozisyon alanları zorunludur.")
    ensures r.Ok? ==> r.value.name == f.name && r.value.position == f.position &&
                      r.value.phone == Some(f.phone) && r.value.email == Some(f.email)
    ensures r.Ok? ==> (r.value.birthDate.None? <==> f.birthDate == "" || Dates.ParseIsoDate(f.birthDate).None?)
  {
    if f.name == "" || f.position == "" then Err("Ad ve pozisyon alanları zorunludur.")
    else Ok(Store.PlayerInfo(f.name, f.position, Some(f.phone), Some(f.email),
                             if f.birthDate == "" then None else Dates.ParseIsoDate(f.birthDate)))
  }

  /** A birth date picked in the form is stored as that day. */
  lemma PickedBirthDate(f: AddForm, d: Dates.CivilDate)
    requires f.name != "" && f.position != ""
    requires Dates.ValidDate(d) && 0 <= d.year <= 9999 && f.birthDate == Dates.IsoDate(d)
    ensures AddPlayerInput(f).Ok? && AddPlayerInput(f).value.birthDate == Some(d)
  {
    Dates.ParseIsoDateOfIsoDate(d);
  }

  /** A player added through the form appears in the list and is found by its name. */
  lemma AddedPlayerFound(players: seq<Player>, f: AddForm, now: nat)
    requires AddPlayerInput(f).Ok?
    ensures var p := Store.NewPlayer(AddPlayerInput(f).value, now);
            p.name == f.name && p in Search(players + [p], f.name)
  {
    var p := Store.NewPlayer(AddPlayerInput(f).value, now);
    assert p.name == Store.WithInfo(AddPlayerInput(f).value)(p).name;
    assert p in players + [p];
    assert p.name[0..|p.name|] == p.name;
    SearchFindsPart(players + [p], p, 0, |p.name|);
  }
}
