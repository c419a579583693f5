/** The two form handlers (app.py, `submit_form` and
    `submit_form_warranty`): the contact-email gate, the payload posted to
    the ERP, the item-row loop of the issue form, and the flash message and
    notification mail that follow the ERP's reply.

    The submitted form maps each field to its values in submission order. Today's date arrives already formatted as
    `YYYY-MM-DD`; the ERP's reply to the post is a parameter. */
module Forms {
  import opened Wrappers
  import opened Text
  import Email

  /** The fields of the two forms, by their HTML names. */
  datatype FormField =
    | NamingSeries | Status | Description | Priority | IssueType | SerialNo | Customer
    | ContactEmailField | IssueGenerateDate | ZonalManager | TerritoryField | JobType
    | IssueResponsibilityWith | PrioPoNumber | AmcType | ContactPersonName | PhoneExtension
    | PhoneNumber | IssueReceivedDates | ItemSerialNos | ItemNames | ItemCodes | CustomerInstrumentIds
    | ComplaintDate | WarrantyClaimResponsibilityWith | WarrantyAmcStatus | Complaint
    | WarrantyExpiryDate | CustomerName | CustomerAddress | ClaimReceivedDates

  /** The name under which the browser submits each field. */
  function HtmlName(f: FormField): string
  {
    match f
    case NamingSeries => "naming_series"
    case Status => "status"
    case Description => "description"
    case Priority => "priority"
    case IssueType => "issue_type"
    case SerialNo => "serial_no"
    case Customer => "customer"
    case ContactEmailField => "custom_contact_email"
    case IssueGenerateDate => "issue_generate_date"
    case ZonalManager => "zonal_manager"
    case TerritoryField => "territory"
    case JobType => "job_type"
    case IssueResponsibilityWith => "issue_responsibility_with"
    case PrioPoNumber => "prio_po_number"
    case AmcType => "amc_type"
    case ContactPersonName => "contact_person_name"
    case PhoneExtension => "phone_extension"
    case PhoneNumber => "phone_number"
    case IssueReceivedDates => "issue_received_date[]"
    case ItemSerialNos => "serial_no[]"
    case ItemNames => "item_name[]"
    case ItemCodes => "item_code[]"
    case CustomerInstrumentIds => "customer_instrument_id[]"
    case ComplaintDate => "complaint_date"
    case WarrantyClaimResponsibilityWith => "warranty_claim_responsibility_with"
    case WarrantyAmcStatus => "warranty_amc_status"
    case Complaint => "complaint"
    case WarrantyExpiryDate => "warranty_expiry_date"
    case CustomerName => "customer_name"
    case CustomerAddress => "customer_address"
    case ClaimReceivedDates => "claim_received_date[]"
  }

  /** A submitted form: the values of each field, in submission order. */
  type Form = map<FormField, seq<string>>

  /** `request.form.get(key)`: the first value, or nothing. */
  function Get(form: Form, key: FormField): Option<string>
  {
    if key in form && form[key] != [] then Some(form[key][0]) else None
  }

  /** `request.form.getlist(key)`. */
  function GetList(form: Form, key: FormField): seq<string>
  {
    if key in form then form[key] else []
  }

  /** Python's `v or default` on an optional string. */
  function Or(v: Option<string>, default: string): string
  {
    if v.Some? && v.value != "" then v.value else default
  }

  /** A flash message and its category. */
  datatype Flash = Flash(category: string, message: string)

  /** A notification mail: recipient, subject and plain-text body. */
  datatype Mail = Mail(recipient: string, subject: string, body: string)

  /** What a form post ends with: the redirect target, the flashed message,
      the payload posted to the ERP (if any) and the mail sent (if any). */
  datatype Submission<P> = Submission(page: string, flash: Flash, posted: Option<P>, mail: Option<Mail>)

  // ---------------------------------------------------------------------
  // The contact-email gate (app.py:292-295, app.py:390-393)
  // ---------------------------------------------------------------------

  /** The stripped contact email of the form. */
  function ContactEmail(form: Form): (e: string)
    ensures e == [] || (!IsSpace(e[0]) && !IsSpace(e[|e| - 1]))
    ensures Strip(e) == e
    ensures e == [] <==> IsBlank(Get(form, ContactEmailField).GetOr(""))
  {
    var raw := Get(form, ContactEmailField).GetOr("");
    StripEmptyIffBlank(raw);
    StripTrimmed(Strip(raw));
    Strip(raw)
  }

  /** The gate: `email and is_valid_email(email)`. */
  function EmailAccepted(form: Form): (ok: bool)
    ensures ok <==> Email.MatchesPattern(ContactEmail(form))
  {
    var e := ContactEmail(form);
    e != "" && Email.IsValidEmail(e)
  }

  /** A blank contact email never passes the gate. */
  lemma BlankEmailRejected(form: Form)
    requires IsBlank(Get(form, ContactEmailField).GetOr(""))
    ensures !EmailAccepted(form)
  {
    StripEmptyIffBlank(Get(form, ContactEmailField).GetOr(""));
  }

  const InvalidEmail := Flash("error", "Invalid email address. Please enter a valid email.")

  // ---------------------------------------------------------------------
  // After the post (app.py:345-375, app.py:426-456)
  // ---------------------------------------------------------------------

  /** The body of the ERP's answer: JSON whose `data` may hold the `name` of
      the created record, or a body that is not such JSON. */
  datatype ReplyBody = Unreadable | Readable(name: Option<string>)

  /** The outcome of `requests.post`: an exception, or a reply. */
  datatype PostReply = Raised(message: string) | Replied(status: nat, body: ReplyBody)

  datatype FormKind = IssueForm | WarrantyForm

  function Page(kind: FormKind): string
  {
    match kind
    case IssueForm => "issue"
    case WarrantyForm => "warranty"
  }

  function RecordLabel(kind: FormKind): string
  {
    match kind
    case IssueForm => "Issue Name"
    case WarrantyForm => "Warranty Name"
  }

  function MailSubject(kind: FormKind): string
  {
    match kind
    case IssueForm => "Electrolab Issue Form Notification"
    case WarrantyForm => "Electrolab Warranty Form Notification"
  }

  /** `response.ok`: false exactly for the client and server error codes. */
  predicate ReplyOk(status: nat)
  {
    !(400 <= status < 600)
  }

  /** The name of the created record: `data.name` of a readable reply, and
      "Unknown" when the body cannot be read or carries no name. */
  function RecordName(body: ReplyBody): (name: string)
    ensures body.Readable? && body.name.Some? ==> name == body.name.value
    ensures body.Unreadable? || body.name.None? ==> name == "Unknown"
  {
    if body.Readable? && body.name.Some? then body.name.value else "Unknown"
  }

  const SuccessPrefix := "Request submitted successfully! "
  const SuccessSuffix := ", for any query contact us on: service@electrolabgroup.com or +91 9167839674"
  const MailPrefix := "Your File is submitted with ID : "

  function SuccessFlash(kind: FormKind, name: string): Flash
  {
    Flash("success", SuccessPrefix + RecordLabel(kind) + ": " + name + SuccessSuffix)
  }

  function StatusFlash(status: nat): Flash
  {
    Flash("error", "Error " + NatToString(status) + ", please check the form and submit again.")
  }

  function RaisedFlash(message: string): Flash
  {
    Flash("error", "Error occurred: " + message)
  }

  /** The flash and the mail that follow the ERP's reply. A mail is sent
      (attempted; its failure is swallowed) only when the reply is ok and
      its body could be read. */
  function AfterPost(kind: FormKind, email: string, reply: PostReply): (r: (Flash, Option<Mail>))
    ensures r.1.Some? <==> reply.Replied? && ReplyOk(reply.status) && reply.body.Readable?
    ensures r.1.Some? ==> r.1.value.recipient == email && r.1.value.subject == MailSubject(kind)
    ensures r.0.category == "success" <==> reply.Replied? && ReplyOk(reply.status)
    ensures r.0.category == "success" ==> r.0 == SuccessFlash(kind, RecordName(reply.body))
    ensures r.1.Some? ==> r.1.value.body == MailPrefix + RecordName(reply.body)
    ensures reply.Replied? && !ReplyOk(reply.status) ==> r.0 == StatusFlash(reply.status)
    ensures reply.Raised? ==> r.0 == RaisedFlash(reply.message)
  {
    match reply
    case Raised(m) => (RaisedFlash(m), None)
    case Replied(status, body) =>
      if !ReplyOk(status) then (StatusFlash(status), None)
      else
        var name := RecordName(body);
        (SuccessFlash(kind, name), if body.Readable? then Some(Mail(email, MailSubject(kind), MailPrefix + name)) else None)
  }

  /** The success flash and the mail report the same record name, and the
      name can be read back out of both. */
  lemma FlashAndMailAgree(kind: FormKind, email: string, reply: PostReply)
    requires AfterPost(kind, email, reply).1.Some?
    ensures var (f, m) := AfterPost(kind, email, reply);
            var head := SuccessPrefix + RecordLabel(kind) + ": ";
            var name := m.value.body[|MailPrefix|..];
            && m.value.body[..|MailPrefix|] == MailPrefix
            && f.message[..|head|] == head
            && f.message[|head|..|f.message| - |SuccessSuffix|] == name
            && (reply.body.name.Some? ==> name == reply.body.name.value)
  {
  }

  /** An ok reply whose body cannot be read still flashes success, naming
      the record "Unknown", and sends no mail. */
  lemma UnreadableReplyIsUnknown(kind: FormKind, email: string, status: nat)
    requires ReplyOk(status)
    ensures AfterPost(kind, email, Replied(status, Unreadable)) == (SuccessFlash(kind, "Unknown"), None)
  {
  }

  /** An ok reply that can be read but carries no name flashes and mails
      the name "Unknown". */
  lemma NamelessReplyIsUnknown(kind: FormKind, email: string, status: nat)
    requires ReplyOk(status)
    ensures var (f, m) := AfterPost(kind, email, Replied(status, Readable(None)));
            && f == SuccessFlash(kind, "Unknown")
            && m == Some(Mail(email, MailSubject(kind), MailPrefix + "Unknown"))
  {
  }

  /** The status code can be read back out of the error flash. */
  lemma StatusFlashNamesStatus(status: nat)
    ensures var msg := StatusFlash(status).message;
            var digits := msg[6..|msg| - |", please check the form and submit again."|];
            msg[..6] == "Error " && DecimalValue(digits) == status
  {
    var msg := StatusFlash(status).message;
    var digits := NatToString(status);
    assert msg[6..|msg| - |", please check the form and submit again."|] == digits;
    NatToStringRoundTrip(status);
  }

  // ---------------------------------------------------------------------
  // The issue form (app.py:280-376)
  // ---------------------------------------------------------------------

  /** One row of `issue_details`. */
  datatype IssueItem = IssueItem(serialNo: string, itemName: string, itemCode: string, customerInstrumentId: string)

  /** The four parallel item lists of the form. */
  datatype ItemLists = ItemLists(serials: seq<string>, names: seq<string>, codes: seq<string>, ids: seq<string>)

  function ItemListsOf(form: Form): ItemLists
  {
    ItemLists(GetList(form, ItemSerialNos), GetList(form, ItemNames),
              GetList(form, ItemCodes), GetList(form, CustomerInstrumentIds))
  }

  /** The positions of the non-blank item names, in increasing order
      (`NonBlankIndicesExactly`). */
  ghost function NonBlankIndices(names: seq<string>): seq<nat>
  {
    if names == [] then []
    else NonBlankIndices(names[..|names| - 1]) + (if IsBlank(names[|names| - 1]) then [] else [|names| - 1])
  }

  /** `NonBlankIndices` lists exactly the positions of the non-blank names,
      each once and in increasing order. */
  lemma {:induction false} NonBlankIndicesExactly(names: seq<string>)
    ensures forall i :: i in NonBlankIndices(names) <==> 0 <= i < |names| && !IsBlank(names[i])
    ensures forall a, b :: 0 <= a < b < |NonBlankIndices(names)| ==> NonBlankIndices(names)[a] < NonBlankIndices(names)[b]
    ensures forall k :: 0 <= k < |NonBlankIndices(names)| ==> NonBlankIndices(names)[k] < |names|
  {
    if names != [] {
      var n := |names| - 1;
      var init := names[..n];
      var d, r := NonBlankIndices(init), NonBlankIndices(names);
      NonBlankIndicesExactly(init);
      assert forall i :: 0 <= i < |init| ==> init[i] == names[i];
      assert r == d + (if IsBlank(names[n]) then [] else [n]);
      forall a, b | 0 <= a < b < |r| ensures r[a] < r[b] {
        assert r[a] == d[a];
        if b < |d| { assert r[b] == d[b]; } else { assert r[b] == n; }
      }
      forall k | 0 <= k < |r| ensures r[k] < |names| {
        if k < |d| { assert r[k] == d[k]; }
      }
    }
  }

  /** Every row before `n` with a non-blank item name has a value in the
      other three lists. */
  ghost predicate ItemsInRangeUpTo(l: ItemLists, n: int)
  {
    forall i :: 0 <= i < n && i < |l.names| && !IsBlank(l.names[i]) ==> i < |l.serials| && i < |l.codes| && i < |l.ids|
  }

  /** Every row with a non-blank item name has a value in the other three lists. */
  ghost predicate ItemsInRange(l: ItemLists)
  {
    ItemsInRangeUpTo(l, |l.names|)
  }

  function ItemAt(l: ItemLists, i: nat): IssueItem
    requires i < |l.serials| && i < |l.names| && i < |l.codes| && i < |l.ids|
  {
    IssueItem(l.serials[i], l.names[i], l.codes[i], l.ids[i])
  }

  /** `items` holds, in order, the rows at the positions `idx`. */
  ghost predicate RowsAt(l: ItemLists, idx: seq<nat>, items: seq<IssueItem>)
  {
    |items| == |idx| &&
    forall k :: 0 <= k < |idx| ==>
      idx[k] < |l.serials| && idx[k] < |l.names| && idx[k] < |l.codes| && idx[k] < |l.ids| && items[k] == ItemAt(l, idx[k])
  }

  /** The state of the item loop after reading the first `i` positions:
      every one of them with a non-blank name had a full row, and `items`
      holds those rows in order. */
  ghost predicate Collected(l: ItemLists, i: nat, items: seq<IssueItem>)
  {
    i <= |l.names| && ItemsInRangeUpTo(l, i) && RowsAt(l, NonBlankIndices(l.names[..i]), items)
  }

  /** A blank name adds no row ... */
  lemma CollectSkip(l: ItemLists, i: nat, items: seq<IssueItem>)
    requires Collected(l, i, items) && i < |l.names| && IsBlank(l.names[i])
    ensures Collected(l, i + 1, items)
  {
    assert l.names[..i + 1][..i] == l.names[..i];
  }

  /** ... a non-blank one with a full row adds that row ... */
  lemma CollectTake(l: ItemLists, i: nat, items: seq<IssueItem>)
    requires Collected(l, i, items) && i < |l.names| && !IsBlank(l.names[i])
    requires i < |l.serials| && i < |l.codes| && i < |l.ids|
    ensures Collected(l, i + 1, items + [ItemAt(l, i)])
  {
    assert l.names[..i + 1][..i] == l.names[..i];
  }

  /** ... a non-blank one without a full row means the lists are out of range ... */
  lemma CollectFail(l: ItemLists, i: nat)
    requires i < |l.names| && !IsBlank(l.names[i])
    requires i >= |l.serials| || i >= |l.codes| || i >= |l.ids|
    ensures !ItemsInRange(l)
  {
  }

  /** ... and after the last position every row has been read. */
  lemma CollectDone(l: ItemLists, items: seq<IssueItem>)
    requires Collected(l, |l.names|, items)
    ensures ItemsInRange(l) && RowsAt(l, NonBlankIndices(l.names), items)
  {
    assert l.names[..|l.names|] == l.names;
  }

  /** The item loop of the issue form (app.py:325-337): the rows whose
      item name is not blank after stripping, in order; reading a shorter
      list past its end raises `IndexError`. */
  method CollectIssueDetails(l: ItemLists) returns (r: Result<seq<IssueItem>, string>)
    ensures r.Err? <==> !ItemsInRange(l)
    ensures r.Err? ==> r.error == "list index out of range"
    ensures r.Ok? ==> RowsAt(l, NonBlankIndices(l.names), r.value)
  {
    var issueData: seq<IssueItem> := [];
    for i := 0 to |l.names|
      invariant Collected(l, i, issueData)
    {
      if StripsToSomething(l.names[i]) {
        if i >= |l.serials| || i >= |l.codes| || i >= |l.ids| {
          CollectFail(l, i);
          return Err("list index out of range");
        }
        CollectTake(l, i, issueData);
        issueData := issueData + [ItemAt(l, i)];
      } else {
        CollectSkip(l, i, issueData);
      }
    }
    CollectDone(l, issueData);
    return Ok(issueData);
  }

  /** The JSON object posted as an Issue. Fields the form may lack are
      optional (posted as null). */
  datatype IssuePayload = IssuePayload(
    namingSeries: Option<string>, status: Option<string>, subject: string, priority: Option<string>,
    issueType: string, serialNo: Option<string>, customer: Option<string>, contactEmail: string,
    issueGenerateDate: string, zonalManager: Option<string>, territory: Option<string>, jobType: string,
    issueResponsibilityWith: Option<string>, prioPoNumber: string, amcType: string, description: string,
    issueReceivedDate: string, issueDetails: Option<seq<IssueItem>>)

  /** The description field: the stripped description, then the contact in bold. */
  function IssueDescription(form: Form): (d: string)
    ensures var head := Strip(Get(form, Description).GetOr("")) + "<br><br><b>";
            && |head| + 4 <= |d| && d[..|head|] == head && d[|d| - 4..] == "</b>"
            && d[|head|..|d| - 4] == Strip(Get(form, ContactPersonName).GetOr("")) + " "
                                     + Strip(Get(form, PhoneExtension).GetOr("")) + Strip(Get(form, PhoneNumber).GetOr(""))
  {
    var head := Strip(Get(form, Description).GetOr("")) + "<br><br><b>";
    var contact := Strip(Get(form, ContactPersonName).GetOr("")) + " "
                   + Strip(Get(form, PhoneExtension).GetOr("")) + Strip(Get(form, PhoneNumber).GetOr(""));
    SplitsBack(head, contact, "</b>");
    head + contact + "</b>"
  }

  /** The three parts of a concatenation can be cut back out of it. */
  lemma SplitsBack(a: string, b: string, c: string)
    ensures var d := a + b + c;
            && d[..|a|] == a && d[|a|..|d| - |c|] == b && d[|d| - |c|..] == c
  {
  }

  /** What the issue payload promises about each field. */
  ghost predicate IssuePayloadOf(form: Form, today: string, p: IssuePayload)
  {
    IssueFieldsCopied(form, p) && IssueFieldsDefaulted(form, today, p) && IssueDetailsOf(form, p)
  }

  /** The fields posted as submitted (or built from submitted fields). */
  ghost predicate IssueFieldsCopied(form: Form, p: IssuePayload)
  {
    && p.namingSeries == Get(form, NamingSeries) && p.status == Get(form, Status)
    && p.priority == Get(form, Priority) && p.serialNo == Get(form, SerialNo)
    && p.customer == Get(form, Customer) && p.zonalManager == Get(form, ZonalManager)
    && p.territory == Get(form, TerritoryField) && p.issueResponsibilityWith == Get(form, IssueResponsibilityWith)
    && p.contactEmail == ContactEmail(form)
    && p.description == IssueDescription(form)
  }

  /** The fields that are cut, joined or given a default. */
  ghost predicate IssueFieldsDefaulted(form: Form, today: string, p: IssuePayload)
  {
    var desc := Get(form, Description).GetOr("");
    var types := GetList(form, IssueType);
    var received := GetList(form, IssueReceivedDates);
    // the subject is the first twenty characters of the description, or all of a shorter one
    && |p.subject| == (if |desc| < 20 then |desc| else 20) && p.subject == desc[..|p.subject|]
    && p.issueType == (if types == [] then "NA" else Join(types, ", "))
    && p.jobType == Or(Get(form, JobType), "ONLINE SUPPORT")
    && p.prioPoNumber == Or(Get(form, PrioPoNumber), "NA")
    && p.amcType == Or(Get(form, AmcType), "Out Of Warranty")
    && p.issueGenerateDate == Or(Get(form, IssueGenerateDate), today)
    && p.issueReceivedDate == (if received == [] then p.issueGenerateDate else received[0])
  }

  /** `issue_details`: the non-blank item rows in order, or nothing at all. */
  ghost predicate IssueDetailsOf(form: Form, p: IssuePayload)
  {
    var l := ItemListsOf(form);
    && (p.issueDetails.None? <==> NonBlankIndices(l.names) == [])
    && (p.issueDetails.Some? ==> RowsAt(l, NonBlankIndices(l.names), p.issueDetails.value))
  }

  /** The issue payload of a form whose item rows are `details`. */
  function IssuePayloadFor(form: Form, today: string, details: seq<IssueItem>): (p: IssuePayload)
    ensures IssueFieldsCopied(form, p) && IssueFieldsDefaulted(form, today, p)
    ensures p.issueDetails.None? <==> details == []
    ensures p.issueDetails.Some? ==> p.issueDetails.value == details
  {
    var desc := Get(form, Description).GetOr("");
    assert desc[..|desc|] == desc;
    var types := GetList(form, IssueType);
    var received := GetList(form, IssueReceivedDates);
    var generateDate := Or(Get(form, IssueGenerateDate), today);
    IssuePayload(
      Get(form, NamingSeries), Get(form, Status), if |desc| < 20 then desc else desc[..20], Get(form, Priority),
      if types != [] then Join(types, ", ") else "NA", Get(form, SerialNo), Get(form, Customer), ContactEmail(form),
      generateDate, Get(form, ZonalManager), Get(form, TerritoryField), Or(Get(form, JobType), "ONLINE SUPPORT"),
      Get(form, IssueResponsibilityWith), Or(Get(form, PrioPoNumber), "NA"),
      Or(Get(form, AmcType), "Out Of Warranty"), IssueDescription(form),
      if received != [] then received[0] else generateDate,
      if details != [] then Some(details) else None)
  }

  /** The payload built from the collected item rows keeps every promise
      about its fields. */
  lemma IssuePayloadForKeepsPromises(form: Form, today: string, details: seq<IssueItem>)
    requires RowsAt(ItemListsOf(form), NonBlankIndices(ItemListsOf(form).names), details)
    ensures IssuePayloadOf(form, today, IssuePayloadFor(form, today, details))
  {
    IssueDetailsFor(form, today, details);
  }

  lemma IssueDetailsFor(form: Form, today: string, details: seq<IssueItem>)
    requires RowsAt(ItemListsOf(form), NonBlankIndices(ItemListsOf(form).names), details)
    ensures IssueDetailsOf(form, IssuePayloadFor(form, today, details))
  {
  }

  /** `submit_form`: the email gate, the item loop, the payload (with the
      generate date completed and the received date chosen), the post and
      its aftermath. */
  method SubmitIssue(form: Form, today: string, reply: PostReply) returns (out: Submission<IssuePayload>)
    ensures out.page == "issue"
    ensures !EmailAccepted(form) ==> out == Submission("issue", InvalidEmail, None, None)
    ensures EmailAccepted(form) && !ItemsInRange(ItemListsOf(form)) ==>
              out == Submission("issue", RaisedFlash("list index out of range"), None, None)
    ensures out.posted.Some? <==> EmailAccepted(form) && ItemsInRange(ItemListsOf(form))
    ensures out.posted.Some? ==> IssuePayloadOf(form, today, out.posted.value)
    ensures out.posted.Some? ==> (out.flash, out.mail) == AfterPost(IssueForm, ContactEmail(form), reply)
  {
    var email := ContactEmail(form);
    if !EmailAccepted(form) {
      return Submission("issue", InvalidEmail, None, None);
    }
    var details := CollectIssueDetails(ItemListsOf(form));
    if details.Err? {
      return Submission("issue", RaisedFlash(details.error), None, None);
    }
    var payload := IssuePayloadFor(form, today, details.value);
    IssuePayloadForKeepsPromises(form, today, details.value);
    var (flash, mail) := AfterPost(IssueForm, email, reply);
    out := Submission("issue", flash, Some(payload), mail);
  }

  /** Blank item rows are skipped: an item list whose names are all blank
      posts no `issue_details` at all. */
  lemma BlankItemsPostNoDetails(form: Form, p: IssuePayload)
    requires IssueDetailsOf(form, p)
    requires forall i :: 0 <= i < |GetList(form, ItemNames)| ==> IsBlank(GetList(form, ItemNames)[i])
    ensures p.issueDetails.None?
  {
    AllBlankNoIndices(GetList(form, ItemNames));
  }

  lemma {:induction false} AllBlankNoIndices(names: seq<string>)
    requires forall i :: 0 <= i < |names| ==> IsBlank(names[i])
    ensures NonBlankIndices(names) == []
  {
    if names != [] {
      AllBlankNoIndices(names[..|names| - 1]);
    }
  }

  /** With no received date and no generate date submitted, both dates are today. */
  lemma IssueDatesDefaultToToday(form: Form, today: string, p: IssuePayload)
    requires IssueFieldsDefaulted(form, today, p)
    requires GetList(form, IssueReceivedDates) == [] && Get(form, IssueGenerateDate).GetOr("") == ""
    ensures p.issueGenerateDate == today && p.issueReceivedDate == today
  {
  }

  // ---------------------------------------------------------------------
  // The warranty form (app.py:379-457)
  // ---------------------------------------------------------------------

  /** The JSON object posted as a Warranty Claim. */
  datatype WarrantyPayload = WarrantyPayload(
    namingSeries: Option<string>, status: Option<string>, contactEmail: string, priority: Option<string>,
    customer: Option<string>, serialNo: Option<string>, issueType: Option<string>, complaintDate: string,
    zonalManager: Option<string>, territory: Option<string>, jobType: Option<string>,
    warrantyClaimResponsibilityWith: Option<string>, prioPoNumber: Option<string>, amcType: Option<string>,
    warrantyAmcStatus: Option<string>, complaint: Option<string>, warrantyExpiryDate: Option<string>,
    customerName: Option<string>, customerAddress: Option<string>, complaintRaisedBy: string,
    claimReceivedDate: string)

  /** The warranty payload of a form: the submitted values as they are
      (null when absent), the contact with the phone number, neither
      stripped, and the two dates with their defaults. */
  function WarrantyPayloadFor(form: Form, today: string): (p: WarrantyPayload)
    ensures Or(Get(form, ComplaintDate), "") == "" ==> p.complaintDate == today
    ensures Or(Get(form, ComplaintDate), "") != "" ==> p.complaintDate == Get(form, ComplaintDate).value
    ensures GetList(form, ClaimReceivedDates) != [] ==> p.claimReceivedDate == GetList(form, ClaimReceivedDates)[0]
    ensures GetList(form, ClaimReceivedDates) == [] ==> p.claimReceivedDate == p.complaintDate
    ensures var name := Get(form, ContactPersonName).GetOr("");
            && |name| < |p.complaintRaisedBy| && p.complaintRaisedBy[..|name|] == name
            && p.complaintRaisedBy[|name|] == ' '
            && p.complaintRaisedBy[|name| + 1..] == Get(form, PhoneNumber).GetOr("")
  {
    var received := GetList(form, ClaimReceivedDates);
    var complaintDate := Or(Get(form, ComplaintDate), today);
    var name := Get(form, ContactPersonName).GetOr("");
    var raisedBy := name + " " + Get(form, PhoneNumber).GetOr("");
    SplitsBack(name, " ", Get(form, PhoneNumber).GetOr(""));
    WarrantyPayload(
      Get(form, NamingSeries), Get(form, Status), ContactEmail(form), Get(form, Priority),
      Get(form, Customer), Get(form, SerialNo), Get(form, IssueType), complaintDate,
      Get(form, ZonalManager), Get(form, TerritoryField), Get(form, JobType),
      Get(form, WarrantyClaimResponsibilityWith), Get(form, PrioPoNumber), Get(form, AmcType),
      Get(form, WarrantyAmcStatus), Get(form, Complaint), Get(form, WarrantyExpiryDate),
      Get(form, CustomerName), Get(form, CustomerAddress),
      raisedBy,
      if received != [] then received[0] else complaintDate)
  }

  /** With no complaint date and no received date submitted, both dates
      of the claim are today. */
  lemma WarrantyDatesDefaultToToday(form: Form, today: string)
    requires GetList(form, ClaimReceivedDates) == [] && Get(form, ComplaintDate).GetOr("") == ""
    ensures WarrantyPayloadFor(form, today).complaintDate == today
    ensures WarrantyPayloadFor(form, today).claimReceivedDate == today
  {
  }

  /** Unlike the issue form's contact, the contact in a claim is not
      stripped: a name with a leading space is posted with it. */
  lemma RaisedByKeepsSpaces(form: Form, today: string)
    requires Get(form, ContactPersonName) == Some(" A")
    ensures WarrantyPayloadFor(form, today).complaintRaisedBy[0] == ' '
  {
  }

  /** `submit_form_warranty`: the email gate, the payload (with the
      complaint date completed and the received date chosen), the post and
      its aftermath. */
  method SubmitWarranty(form: Form, today: string, reply: PostReply) returns (out: Submission<WarrantyPayload>)
    ensures out.page == "warranty"
    ensures !EmailAccepted(form) ==> out == Submission("warranty", InvalidEmail, None, None)
    ensures out.posted.Some? <==> EmailAccepted(form)
    ensures out.posted.Some? ==> out.posted.value == WarrantyPayloadFor(form, today)
    ensures out.posted.Some? ==> (out.flash, out.mail) == AfterPost(WarrantyForm, ContactEmail(form), reply)
  {
    var email := ContactEmail(form);
    if !EmailAccepted(form) {
      return Submission("warranty", InvalidEmail, None, None);
    }
    var payload := WarrantyPayloadFor(form, today);
    var (flash, mail) := AfterPost(WarrantyForm, email, reply);
    out := Submission("warranty", flash, Some(payload), mail);
  }
}
