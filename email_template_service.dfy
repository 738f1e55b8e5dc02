/** The email message template service: create, update and delete over the
    template table, each a chain of guards ending in one table change. */
module EmailTemplates {
  import opened Common

  /** One template row. `body` stands for the mapped columns other than
      the id and the name, which no guard inspects. */
  datatype Template = Template(id: int, name: string, body: string)

  datatype Reason = NameExists | NotExist | OperationFailed

  /** Some live template carries this name. */
  ghost predicate NameTaken(templates: map<int, Template>, name: string)
  {
    exists k :: k in templates && templates[k].name == name
  }

  /** Each row is stored under its own id. */
  ghost predicate WellKeyed(templates: map<int, Template>)
  {
    forall k :: k in templates ==> templates[k].id == k
  }

  /** No two live templates share a name. */
  ghost predicate NamesUnique(templates: map<int, Template>)
  {
    forall a, b :: a in templates && b in templates && a != b ==> templates[a].name != templates[b].name
  }

  /** The guards of `UpdateAsync` as written: an unknown id is refused, and
      when the name changes the duplicate query looks for the STORED name,
      which the stored row itself always carries. */
  ghost function UpdateGuard(templates: map<int, Template>, dto: Template): (r: Option<Reason>)
    ensures r == Some(NotExist) <==> dto.id !in templates
    ensures r == Some(NameExists) <==> dto.id in templates && templates[dto.id].name != dto.name
    ensures r.None? <==> dto.id in templates && templates[dto.id].name == dto.name
  {
    if dto.id !in templates then Some(NotExist)
    else
      var stored := templates[dto.id];
      assert NameTaken(templates, stored.name) by {
        assert templates[dto.id].name == stored.name;
      }
      if stored.name != dto.name && NameTaken(templates, stored.name) then Some(NameExists)
      else None
  }

  /** The guards as evidently intended: a changed name is refused only
      when another template already carries the NEW name. */
  ghost function IntendedUpdateGuard(templates: map<int, Template>, dto: Template): (r: Option<Reason>)
    ensures r == Some(NotExist) <==> dto.id !in templates
    ensures r == Some(NameExists) ==> exists k :: k in templates && k != dto.id && templates[k].name == dto.name
    ensures dto.id in templates && templates[dto.id].name == dto.name ==> r.None?
  {
    if dto.id !in templates then Some(NotExist)
    else if templates[dto.id].name != dto.name && NameTaken(templates, dto.name) then Some(NameExists)
    else None
  }

  /** With the guard as written, renaming a template to a name nobody uses
      is still refused. */
  lemma RenameAlwaysRejected()
    ensures !NameTaken(map[1 := Template(1, "A", "")], "B")
    ensures UpdateGuard(map[1 := Template(1, "A", "")], Template(1, "B", "")) == Some(NameExists)
  {
  }

  /** With the intended guard, the same rename is accepted. */
  lemma IntendedRenameAccepted()
    ensures IntendedUpdateGuard(map[1 := Template(1, "A", "")], Template(1, "B", "")).None?
  {
    assert !NameTaken(map[1 := Template(1, "A", "")], "B");
  }

  /** The intended guard accepts a rename exactly when the new name is
      free, and what it lets through keeps names unique. */
  lemma IntendedGuardKeepsNamesUnique(templates: map<int, Template>, dto: Template)
    requires NamesUnique(templates) && dto.id in templates
    ensures IntendedUpdateGuard(templates, dto).None? <==>
      templates[dto.id].name == dto.name || !NameTaken(templates, dto.name)
    ensures IntendedUpdateGuard(templates, dto).None? ==> NamesUnique(templates[dto.id := dto])
  {
    var after := templates[dto.id := dto];
    if IntendedUpdateGuard(templates, dto).None? {
      forall a, b | a in after && b in after && a != b ensures after[a].name != after[b].name {
        if a == dto.id && templates[dto.id].name != dto.name {
          assert !NameTaken(templates, dto.name);
          assert templates[b].name != dto.name;
        } else if b == dto.id && templates[dto.id].name != dto.name {
          assert !NameTaken(templates, dto.name);
          assert templates[a].name != dto.name;
        }
      }
    }
  }

  /** Whatever the guard as written lets through keeps names unique too,
      since it lets through no rename at all. */
  lemma WrittenGuardKeepsNamesUnique(templates: map<int, Template>, dto: Template)
    requires NamesUnique(templates)
    requires UpdateGuard(templates, dto).None?
    ensures NamesUnique(templates[dto.id := dto])
  {
    var after := templates[dto.id := dto];
    forall a, b | a in after && b in after && a != b ensures after[a].name != after[b].name {
      if a == dto.id {
        assert templates[a].name == dto.name;
      } else if b == dto.id {
        assert templates[b].name == dto.name;
      }
    }
  }

  class EmailTemplateService {
    /** The templates not logically deleted, by id. */
    var templates: map<int, Template>

    ghost predicate Valid()
      reads this
    {
      WellKeyed(templates)
    }

    constructor(templates: map<int, Template>)
      requires WellKeyed(templates)
      ensures Valid() && this.templates == templates
    {
      this.templates := templates;
    }

    /** `AddAsync`: the insert may fail; on success the row is stored under
        a fresh positive id. */
    method Add(t: Template) returns (ok: bool)
      requires Valid()
      modifies this`templates
      ensures Valid()
      ensures ok ==> exists k :: k > 0 && k !in old(templates) && templates == old(templates)[k := t.(id := k)]
      ensures !ok ==> templates == old(templates)
    {
      ok :| true;
      if ok {
        var k := FreshKey(templates);
        templates := templates[k := t.(id := k)];
      }
    }

    /** `UpdateAsync` of the base repository: overwrites the row. */
    method Overwrite(t: Template) returns (ok: bool)
      requires Valid() && t.id in templates
      modifies this`templates
      ensures Valid()
      ensures ok ==> templates == old(templates)[t.id := t]
      ensures !ok ==> templates == old(templates)
    {
      ok :| true;
      if ok {
        templates := templates[t.id := t];
      }
    }

    /** `LogicDelete`: marks every row whose id is in `ids` as deleted and
        reports how many it marked; a failed statement marks none. */
    method LogicDelete(ids: set<int>) returns (count: int)
      requires Valid()
      modifies this`templates
      ensures Valid()
      ensures (count == |ids * old(templates).Keys| && templates == old(templates) - ids)
           || (count == 0 && templates == old(templates))
    {
      var ok :| true;
      if ok {
        count := |ids * templates.Keys|;
        templates := templates - ids;
      } else {
        count := 0;
      }
    }

    /** `CreateAsync`: refuses a name already in use; otherwise inserts
        exactly one row. */
    method Create(dto: Template) returns (r: OperateResult<Reason>)
      requires Valid()
      modifies this`templates
      ensures Valid()
      ensures NameTaken(old(templates), dto.name) ==> r == Error(NameExists) && templates == old(templates)
      ensures !NameTaken(old(templates), dto.name) ==>
        (r.Success? && exists k :: k > 0 && k !in old(templates) && templates == old(templates)[k := dto.(id := k)])
        || (r == Error(OperationFailed) && templates == old(templates))
      ensures NamesUnique(old(templates)) ==> NamesUnique(templates)
    {
      if exists k :: k in templates && templates[k].name == dto.name {
        return Error(NameExists);
      }
      var ok := Add(dto);
      r := ResultOf(ok, OperationFailed);
      if ok {
        ghost var k :| k > 0 && k !in old(templates) && templates == old(templates)[k := dto.(id := k)];
        forall a, b | a in templates && b in templates && a != b && NamesUnique(old(templates))
          ensures templates[a].name != templates[b].name
        {
          if a == k {
            assert templates[b] == old(templates)[b];
          } else if b == k {
            assert templates[a] == old(templates)[a];
          }
        }
      }
    }

    /** `UpdateAsync`: the guards as written, then the overwrite. */
    method Update(dto: Template) returns (r: OperateResult<Reason>)
      requires Valid()
      modifies this`templates
      ensures Valid()
      ensures UpdateGuard(old(templates), dto).Some? ==>
        r == Error(UpdateGuard(old(templates), dto).value) && templates == old(templates)
      ensures UpdateGuard(old(templates), dto).None? ==>
        (r.Success? && templates == old(templates)[dto.id := dto])
        || (r == Error(OperationFailed) && templates == old(templates))
      ensures NamesUnique(old(templates)) ==> NamesUnique(templates)
    {
      if dto.id !in templates {
        return Error(NotExist);
      }
      var stored := templates[dto.id];
      if stored.name != dto.name && exists k :: k in templates && templates[k].name == stored.name {
        return Error(NameExists);
      }
      var ok := Overwrite(dto);
      r := ResultOf(ok, OperationFailed);
      if NamesUnique(old(templates)) {
        WrittenGuardKeepsNamesUnique(old(templates), dto);
      }
    }

    /** `DeleteAsync`: refuses when no id matches; otherwise deletes every
        match and succeeds when the delete marked any row. */
    method Delete(ids: set<int>) returns (r: OperateResult<Reason>)
      requires Valid()
      modifies this`templates
      ensures Valid()
      ensures ids * old(templates).Keys == {} ==> r == Error(NotExist) && templates == old(templates)
      ensures ids * old(templates).Keys != {} ==>
        (r.Success? && templates == old(templates) - ids)
        || (r == Error(OperationFailed) && templates == old(templates))
    {
      if ids * templates.Keys == {} {
        return Error(NotExist);
      }
      var count := LogicDelete(ids);
      r := ResultOf(count > 0, OperationFailed);
    }
  }
}
