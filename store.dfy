/** The in-memory stand-in for the MongoDB database behind the Prisma client:
    one mutable object holding every collection the core touches. */
module Store {
  import opened Common
  import opened Records

  class Database {
    var files: seq<FileRecord>
    var users: seq<UserRecord>
    var settings: seq<Setting>
    var adViews: seq<AdEvent>
    var adClicks: seq<AdEvent>
    var links: seq<Link>
    var mails: seq<Mail>

    /** The unique indexes of the schema: file, user and setting ids,
        user emails and setting keys. */
    predicate Valid()
      reads this
    {
      && UniqueBy(files, FileIdOf)
      && UniqueBy(users, UserIdOf)
      && UniqueBy(users, EmailOf)
      && UniqueBy(settings, SettingIdOf)
      && UniqueBy(settings, SettingKeyOf)
    }

    constructor ()
      ensures Valid()
      ensures files == [] && users == [] && settings == []
      ensures adViews == [] && adClicks == [] && links == [] && mails == []
    {
      files, users, settings := [], [], [];
      adViews, adClicks, links, mails := [], [], [], [];
    }

    /** Every id in use, in any collection. */
    function UsedIds(): set<Id>
      reads this
    {
      (set f | f in files :: f.id) + (set u | u in users :: u.id) + (set s | s in settings :: s.id)
      + (set e | e in adViews :: e.id) + (set e | e in adClicks :: e.id)
      + (set l | l in links :: l.id) + (set m | m in mails :: m.id)
    }
  }
}
