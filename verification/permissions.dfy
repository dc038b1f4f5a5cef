/**
 * The list of permissions and its check (src/security/permissions_manager.cpp,
 * src/security/security_verification.cpp).
 */
module Permissions {
  import opened Wrappers
  import opened Query

  datatype ActionType = Creation | Reading | Updating | Deletion

  datatype Permission = Permission(route: string, idUser: int, username: string, idGroup: int, action: ActionType)

  datatype SecurityType = DisableAll | EnableAll

  const ACTION_TYPES: map<string, ActionType> :=
    map["POST" := Creation, "GET" := Reading, "PUT" := Updating, "DEL" := Deletion]

  /** A name that is not in the map counts as reading. */
  function MapAction(name: string): ActionType {
    if name in ACTION_TYPES then ACTION_TYPES[name] else Reading
  }

  /** Row::ExtractField_: the value of the first field of the name; empty if there is none. */
  function FieldOf(row: seq<Cell>, name: string): (v: Value)
    ensures (forall k :: 0 <= k < |row| ==> row[k].column != name) ==> v.Empty?
  {
    if row == [] then Empty
    else if row[0].column == name then row[0].value
    else FieldOf(row[1..], name)
  }

  /** The permission a row stands for, if no field is NULL and all have the types the code asks for. */
  function RowPermission(row: seq<Cell>): Option<Permission> {
    match (FieldOf(row, "endpoint"), FieldOf(row, "username"), FieldOf(row, "id_user"), FieldOf(row, "id_group"),
           FieldOf(row, "action"))
    case (Str(endpoint), Str(username), Int(idUser), Int(idGroup), Str(action)) =>
      Some(Permission(endpoint, idUser, username, idGroup, MapAction(action)))
    case _ => None
  }

  /** The permissions of the rows before the first bad one, at which an exception ends the loop. */
  function LoadedRows(rows: Table): seq<Permission> {
    if rows == [] || RowPermission(rows[0]).None? then []
    else [RowPermission(rows[0]).value] + LoadedRows(rows[1..])
  }

  predicate Grants(p: Permission, route: string, idUser: int, action: ActionType) {
    p.route == route && p.idUser == idUser && p.action == action
  }

  class PermissionsManager {
    var permissions: seq<Permission>
    var actionTypes: map<string, ActionType>

    constructor ()
      ensures permissions == [] && actionTypes == map[]
    {
      permissions, actionTypes := [], map[];
    }

    method FillActionTypeMap()
      modifies this`actionTypes
      ensures actionTypes == ACTION_TYPES
      ensures actionTypes.Keys == {"POST", "GET", "PUT", "DEL"}
      ensures forall a, b :: a in actionTypes && b in actionTypes && a != b ==> actionTypes[a] != actionTypes[b]
      ensures actionTypes["GET"] == Reading
    {
      actionTypes := map[];
      actionTypes := actionTypes["POST" := Creation];
      actionTypes := actionTypes["GET" := Reading];
      actionTypes := actionTypes["PUT" := Updating];
      actionTypes := actionTypes["DEL" := Deletion];
    }

    /** The action a name stands for; a name that is not in the map, which is empty before a load, is reading. */
    function Mapped(name: string): ActionType
      reads this`actionTypes
    {
      if name in actionTypes then actionTypes[name] else Reading
    }

    /** The list has a permission for the route, the user and the mapped action. */
    ghost predicate ListGrants(route: string, idUser: int, action: string)
      reads this
    {
      exists p :: p in permissions && Grants(p, route, idUser, Mapped(action))
    }

    /**
     * Empties the list and fills it from the reply; nothing of what was loaded before remains. When the reply is the
     * join of the two tables, the list then grants exactly what the tables grant.
     */
    method LoadPermissions(reply: Option<Table>)
      modifies this
      ensures actionTypes == ACTION_TYPES
      ensures permissions == match reply case None => [] case Some(rows) => LoadedRows(rows)
      ensures forall rows, users, route, idUser, action ::
                reply.Some? && IsJoin(reply.value, rows, users) ==>
                  (ListGrants(route, idUser, action) <==> TablesGrant(rows, users, route, idUser, action))
    {
      FillActionTypeMap();
      permissions := [];
      if reply.Some? {
        ReadPermissions(reply.value);
        forall rows, users, route, idUser, action | IsJoin(reply.value, rows, users)
          ensures ListGrants(route, idUser, action) <==> TablesGrant(rows, users, route, idUser, action)
        {
          ListAgreesWithTables(reply.value, rows, users, route, idUser, action);
        }
      }
    }

    /** The loop over the rows; a bad row ends it, and what was read before stays. */
    method ReadPermissions(rows: Table)
      requires actionTypes == ACTION_TYPES && permissions == []
      modifies this`permissions
      ensures permissions == LoadedRows(rows)
    {
      for i := 0 to |rows|
        invariant permissions + LoadedRows(rows[i..]) == LoadedRows(rows)
      {
        var rest := rows[i..];
        assert rest[0] == rows[i] && rest[1..] == rows[i + 1..];
        var permission := ReadPermission(rows[i]);
        if permission.None? { return; }
        permissions := permissions + [permission.value];
      }
    }

    /** One row: first all fields are checked for NULL, then read with their types. */
    method ReadPermission(row: seq<Cell>) returns (permission: Option<Permission>)
      requires actionTypes == ACTION_TYPES
      ensures permission == RowPermission(row)
      ensures permission.Some? <==>
                && FieldOf(row, "endpoint").Str? && FieldOf(row, "username").Str? && FieldOf(row, "action").Str?
                && FieldOf(row, "id_user").Int? && FieldOf(row, "id_group").Int?
      ensures permission.Some? ==>
                && permission.value.route == FieldOf(row, "endpoint").s
                && permission.value.idUser == FieldOf(row, "id_user").i
                && permission.value.username == FieldOf(row, "username").s
                && permission.value.idGroup == FieldOf(row, "id_group").i
    {
      var endpoint, username := FieldOf(row, "endpoint"), FieldOf(row, "username");
      var idUser, idGroup := FieldOf(row, "id_user"), FieldOf(row, "id_group");
      var action := FieldOf(row, "action");
      if endpoint.Empty? || username.Empty? || idUser.Empty? || action.Empty? || idGroup.Empty? { return None; }
      if !action.Str? || !endpoint.Str? || !idUser.Int? || !username.Str? || !idGroup.Int? { return None; }
      permission := Some(Permission(endpoint.s, idUser.i, username.s, idGroup.i, Mapped(action.s)));
    }

    /** The position of the first permission for the route, the user and the mapped action. */
    method FindPermission(route: string, idUser: int, action: string) returns (found: Option<nat>)
      ensures var mapped := Mapped(action);
              match found
              case Some(k) =>
                && k < |permissions| && Grants(permissions[k], route, idUser, mapped)
                && forall i :: 0 <= i < k ==> !Grants(permissions[i], route, idUser, mapped)
              case None => forall p :: p in permissions ==> !Grants(p, route, idUser, mapped)
    {
      var mapped := Mapped(action);
      for i := 0 to |permissions|
        invariant forall j :: 0 <= j < i ==> !Grants(permissions[j], route, idUser, mapped)
      {
        var p := permissions[i];
        if p.route == route && p.idUser == idUser && p.action == mapped { return Some(i); }
      }
      found := None;
    }

    /** True with a permission, and without one only when everything is enabled. */
    method VerifyRoutesPermissions(security: SecurityType, route: string, idUser: int, action: string)
      returns (allowed: bool)
      ensures allowed <==> security.EnableAll? || ListGrants(route, idUser, action)
    {
      var found := FindPermission(route, idUser, action);
      assert found.Some? ==> permissions[found.value] in permissions;
      match security {
        case DisableAll =>
          if found.None? { return false; }
        case EnableAll =>
          if found.None? { return true; }
      }
      allowed := true;
    }
  }

  // ----- The tables behind the list -----

  /** A row of the permissions table and one of the users table. */
  datatype GroupPermission = GroupPermission(endpoint: string, action: string, idGroup: int)
  datatype User = User(id: int, username: string, idGroup: int)

  /** The row the query selects for a permission and a user of its group. */
  function JoinedRow(p: GroupPermission, u: User): seq<Cell> {
    [Cell("endpoint", Str(p.endpoint)), Cell("username", Str(u.username)), Cell("id_user", Int(u.id)),
     Cell("action", Str(p.action)), Cell("id_group", Int(u.idGroup))]
  }

  predicate Joins(p: GroupPermission, u: User) {
    u.idGroup == p.idGroup
  }

  /** The rows are those of the join of the two tables, in any order and multiplicity. */
  ghost predicate IsJoin(rows: Table, permissions: seq<GroupPermission>, users: seq<User>) {
    && (forall row :: row in rows ==>
          exists p, u :: p in permissions && u in users && Joins(p, u) && row == JoinedRow(p, u))
    && (forall p, u :: p in permissions && u in users && Joins(p, u) ==> JoinedRow(p, u) in rows)
  }

  lemma ColumnsDiffer()
    ensures "username" != "endpoint" && "id_user" != "endpoint" && "id_user" != "username"
    ensures "action" != "endpoint" && "action" != "username" && "action" != "id_user"
    ensures "id_group" != "endpoint" && "id_group" != "username" && "id_group" != "id_user" && "id_group" != "action"
  {
    assert "endpoint"[0] == 'e' && "username"[0] == 'u' && "id_user"[0] == 'i' && "action"[0] == 'a';
    assert "id_group"[0] == 'i' && |"id_group"| == 8 && |"id_user"| == 7;
  }

  /** The field at position j, when no earlier one has its name. */
  lemma {:induction false} FieldAt(row: seq<Cell>, j: nat)
    requires j < |row| && forall k :: 0 <= k < j ==> row[k].column != row[j].column
    ensures FieldOf(row, row[j].column) == row[j].value
  {
    if j > 0 {
      FieldAt(row[1..], j - 1);
    }
  }

  lemma FieldsInOrder(row: seq<Cell>, names: seq<string>)
    requires |row| == |names| && forall j :: 0 <= j < |row| ==> row[j].column == names[j]
    requires forall j, k :: 0 <= j < k < |names| ==> names[k] != names[j]
    ensures forall j :: 0 <= j < |row| ==> FieldOf(row, names[j]) == row[j].value
  {
    forall j | 0 <= j < |row|
      ensures FieldOf(row, names[j]) == row[j].value
    {
      FieldAt(row, j);
    }
  }

  lemma JoinedPermission(p: GroupPermission, u: User)
    ensures RowPermission(JoinedRow(p, u))
            == Some(Permission(p.endpoint, u.id, u.username, u.idGroup, MapAction(p.action)))
  {
    var names := ["endpoint", "username", "id_user", "action", "id_group"];
    ColumnsDiffer();
    FieldsInOrder(JoinedRow(p, u), names);
    assert names[0] == "endpoint" && names[1] == "username" && names[2] == "id_user";
    assert names[3] == "action" && names[4] == "id_group";
  }

  /** Every row before the first bad one becomes a permission, in order; nothing else does. */
  lemma {:induction false} LoadedUntilBad(rows: Table)
    ensures |LoadedRows(rows)| <= |rows|
    ensures forall i :: 0 <= i < |LoadedRows(rows)| ==> RowPermission(rows[i]) == Some(LoadedRows(rows)[i])
    ensures |LoadedRows(rows)| < |rows| ==> RowPermission(rows[|LoadedRows(rows)|]).None?
  {
    if rows != [] {
      LoadedUntilBad(rows[1..]);
    }
  }

  /** The name an action goes by: POST, PUT and DEL are names of their own, every other name counts as GET. */
  function ActsAs(name: string): string {
    if name in {"POST", "PUT", "DEL"} then name else "GET"
  }

  lemma NamesDiffer()
    ensures "POST" != "GET" && "POST" != "PUT" && "POST" != "DEL"
    ensures "GET" != "PUT" && "GET" != "DEL" && "PUT" != "DEL"
  {
    assert "POST"[1] == 'O' && "PUT"[1] == 'U' && "GET"[0] == 'G' && "DEL"[0] == 'D' && "PUT"[0] == 'P';
  }

  /** The mapping keeps apart what goes by different names, and nothing else. */
  lemma MappedByName(a: string, b: string)
    ensures MapAction(a) == MapAction(b) <==> ActsAs(a) == ActsAs(b)
  {
    NamesDiffer();
  }

  /** The user belongs to a group that has a permission for the endpoint and for what the action's name stands for. */
  ghost predicate TablesGrant(permissions: seq<GroupPermission>, users: seq<User>, route: string, idUser: int,
                              action: string)
  {
    exists p, u ::
      && p in permissions && u in users && Joins(p, u)
      && u.id == idUser && p.endpoint == route && ActsAs(p.action) == ActsAs(action)
  }

  /** The rows of the join, read as a list of permissions, grant exactly what the tables grant. */
  lemma ListAgreesWithTables(rows: Table, permissions: seq<GroupPermission>, users: seq<User>,
                             route: string, idUser: int, action: string)
    requires IsJoin(rows, permissions, users)
    ensures (exists p :: p in LoadedRows(rows) && Grants(p, route, idUser, MapAction(action)))
       <==> TablesGrant(permissions, users, route, idUser, action)
  {
    JoinIsGood(rows, permissions, users);
    LoadedUntilBad(rows);
    if q :| q in LoadedRows(rows) && Grants(q, route, idUser, MapAction(action)) {
      GrantedByTables(rows, permissions, users, q, action);
    }
    if p, u :| p in permissions && u in users && Joins(p, u)
               && u.id == idUser && p.endpoint == route && ActsAs(p.action) == ActsAs(action) {
      MappedByName(p.action, action);
      GrantedByList(rows, p, u);
    }
  }

  lemma JoinIsGood(rows: Table, permissions: seq<GroupPermission>, users: seq<User>)
    requires IsJoin(rows, permissions, users)
    ensures forall row :: row in rows ==> RowPermission(row).Some?
  {
    forall row | row in rows
      ensures RowPermission(row).Some?
    {
      var p, u :| p in permissions && u in users && Joins(p, u) && row == JoinedRow(p, u);
      JoinedPermission(p, u);
    }
  }

  lemma GrantedByTables(rows: Table, permissions: seq<GroupPermission>, users: seq<User>, q: Permission, action: string)
    requires IsJoin(rows, permissions, users) && q in LoadedRows(rows) && q.action == MapAction(action)
    ensures TablesGrant(permissions, users, q.route, q.idUser, action)
  {
    LoadedUntilBad(rows);
    var i :| 0 <= i < |LoadedRows(rows)| && LoadedRows(rows)[i] == q;
    assert rows[i] in rows;
    var p, u :| p in permissions && u in users && Joins(p, u) && rows[i] == JoinedRow(p, u);
    JoinedPermission(p, u);
    MappedByName(p.action, action);
  }

  lemma GrantedByList(rows: Table, p: GroupPermission, u: User)
    requires JoinedRow(p, u) in rows && forall row :: row in rows ==> RowPermission(row).Some?
    ensures Permission(p.endpoint, u.id, u.username, u.idGroup, MapAction(p.action)) in LoadedRows(rows)
  {
    JoinedPermission(p, u);
    LoadedUntilBad(rows);
    assert forall i :: 0 <= i < |rows| ==> rows[i] in rows;
    var i :| 0 <= i < |rows| && rows[i] == JoinedRow(p, u);
    assert LoadedRows(rows)[i] in LoadedRows(rows);
  }

  /**
   * Over tables that only use the four names, an action of one of these names is granted exactly by a row with that
   * very name, and any other name exactly as GET is.
   */
  lemma GrantedByName(permissions: seq<GroupPermission>, users: seq<User>, route: string, idUser: int, action: string)
    requires forall p :: p in permissions ==> p.action in {"POST", "GET", "PUT", "DEL"}
    ensures action in {"POST", "GET", "PUT", "DEL"} ==>
              (TablesGrant(permissions, users, route, idUser, action) <==>
                 exists p, u :: (
                   && p in permissions && u in users && Joins(p, u)
                   && u.id == idUser && p.endpoint == route && p.action == action))
    ensures action !in {"POST", "GET", "PUT", "DEL"} ==>
              (TablesGrant(permissions, users, route, idUser, action)
               <==> TablesGrant(permissions, users, route, idUser, "GET"))
  {
    NamesDiffer();
    forall p | p in permissions
      ensures action in {"POST", "GET", "PUT", "DEL"} ==> (ActsAs(p.action) == ActsAs(action) <==> p.action == action)
    {
    }
  }
}
